/**
 The delete and rewrite verdicts over collected base references (`BaseRefs.is_protected`,
 `protects_from_deletion`, `pin_tags`, `containment_of` and `rewrite_refusal` of
 `lakehouse_kit/base_refs.py`), and what they guarantee about the estate the references came from.
 */
module BaseVerdicts {
  import opened Outcomes
  import opened Locations
  import opened LocationLaws
  import opened BaseJudging
  import opened BaseRefs

  /** The roots in the order a verdict tries them: the protected sorted, then the pinned sorted. */
  function Roots(refs: Refs): seq<string> {
    Sorted(refs.protected) + Sorted(refs.pinned.Keys)
  }

  function FirstOverlapping(roots: seq<string>, target: string): (first: Option<string>)
    ensures first.None? ==> forall r :: r in roots ==> !Overlaps(target, r)
    ensures first.Some? ==> exists i :: 0 <= i < |roots| && IsFirst(roots, target, i) && roots[i] == first.value
  {
    if roots == [] then None
    else if Overlaps(target, roots[0]) then
      assert IsFirst(roots, target, 0);
      Some(roots[0])
    else
      var rest := FirstOverlapping(roots[1..], target);
      assert rest.Some? ==> exists i :: 0 <= i < |roots| && IsFirst(roots, target, i) && roots[i] == rest.value by {
        if rest.Some? {
          var i :| 0 <= i < |roots[1..]| && IsFirst(roots[1..], target, i) && roots[1..][i] == rest.value;
          assert forall k :: 1 <= k < |roots| ==> roots[k] == roots[1..][k - 1];
          assert IsFirst(roots, target, i + 1);
        }
      }
      rest
  }

  ghost predicate IsFirst(roots: seq<string>, target: string, i: nat) {
    && i < |roots| && Overlaps(target, roots[i])
    && forall k :: 0 <= k < i ==> !Overlaps(target, roots[k])
  }

  function IsProtected(refs: Refs, location: string): Option<string> {
    FirstOverlapping(Roots(refs), DecodedPath(location))
  }

  // ---------------------------------------------------------------- deleting

  /** Whether a delete of `location`, and of `alongWith`, takes the dataset at `uri` with it. */
  predicate GoesToo(location: string, alongWith: Option<string>, uri: string) {
    Within(location, uri) || (alongWith.Some? && Within(alongWith.value, uri))
  }

  /** The dataset at `uri` is, or lies in, what is deleted. */
  ghost predicate LiesInDeleted(uri: string, location: string, alongWith: Option<string>) {
    LiesIn(uri, location) || (alongWith.Some? && LiesIn(uri, alongWith.value))
  }

  lemma {:induction false} GoesTooExactly(location: string, alongWith: Option<string>, uri: string)
    ensures GoesToo(location, alongWith, uri) <==> LiesInDeleted(uri, location, alongWith)
  {
    WithinByPath(location, uri);
    if alongWith.Some? {
      WithinByPath(alongWith.value, uri);
    }
  }

  /** Whether a referrer of `root` would be left behind, an unknown one included. */
  predicate LeavesAReferrer(refs: Refs, root: string, location: string, alongWith: Option<string>) {
    || root !in refs.referrers
    || refs.referrers[root] == {}
    || exists who :: who in refs.referrers[root] && !GoesToo(location, alongWith, who)
  }

  function FirstBroken(
      refs: Refs, roots: seq<string>, location: string, alongWith: Option<string>): (broken: Option<string>)
    ensures broken.None? ==>
      forall r :: r in roots && Overlaps(DecodedPath(location), r) ==> !LeavesAReferrer(refs, r, location, alongWith)
    ensures broken.Some? ==>
      && broken.value in roots && Overlaps(DecodedPath(location), broken.value)
      && LeavesAReferrer(refs, broken.value, location, alongWith)
  {
    if roots == [] then None
    else if Overlaps(DecodedPath(location), roots[0]) && LeavesAReferrer(refs, roots[0], location, alongWith) then
      Some(roots[0])
    else FirstBroken(refs, roots[1..], location, alongWith)
  }

  function ProtectsFromDeletion(refs: Refs, location: string, alongWith: Option<string>): Option<string> {
    FirstBroken(refs, Roots(refs), location, alongWith)
  }

  /** The verdict over any refs at all: None exactly when every root that overlaps the location has referrers, and all
      of them lie in what is deleted. A root whose referrers are not known is never given up. */
  lemma {:induction false} ProtectsFromDeletionExactly(refs: Refs, location: string, alongWith: Option<string>)
    ensures ProtectsFromDeletion(refs, location, alongWith).None?
            <==> forall root ::
                   (root in refs.protected || root in refs.pinned) && Overlaps(DecodedPath(location), root) ==>
                     && root in refs.referrers && refs.referrers[root] != {}
                     && forall who :: who in refs.referrers[root] ==> LiesInDeleted(who, location, alongWith)
  {
    hide Sorted, DecodedPath, Overlaps, GoesToo, LiesInDeleted;
    forall who ensures GoesToo(location, alongWith, who) <==> LiesInDeleted(who, location, alongWith) {
      GoesTooExactly(location, alongWith, who);
    }
    assert forall root :: root in Roots(refs) <==> root in refs.protected || root in refs.pinned;
  }

  lemma {:induction false} RootsAreTheSanctionedBases(refs: Refs, edges: seq<Edge>, root: string)
    requires Reflects(refs, edges)
    ensures root in Roots(refs) <==> exists e :: e in edges && e.Sanctioned() && e.Base() == root
    ensures root in Roots(refs) <==> root in refs.referrers && refs.referrers[root] != {}
  {
    hide Within, DecodedPath, Sorted;
    assert root in Roots(refs) <==> root in refs.protected || root in refs.pinned;
    if root in refs.pinned {
      var tag :| tag in refs.pinned[root];
      assert PinnedBy(edges, root, tag);
    }
    if e :| e in edges && e.Sanctioned() && e.Base() == root {
      assert HeldBy(edges, root, e.referrer);
      if e.Pins() {
        assert PinnedBy(edges, root, e.judgement.entry.value.tag.value);
      } else {
        assert ProtectedBy(edges, root);
      }
    }
    if root in refs.referrers && refs.referrers[root] != {} {
      var who :| who in refs.referrers[root];
      assert HeldBy(edges, root, who);
    }
  }

  /** A delete is answered None if and only if it breaks nobody: every sanctioned foreign base of the estate
      that overlaps the deleted location is declared by a dataset the delete takes with it. */
  lemma {:induction false} DeletionBreaksNobody(
      refs: Refs, edges: seq<Edge>, location: string, alongWith: Option<string>)
    requires Reflects(refs, edges)
    ensures ProtectsFromDeletion(refs, location, alongWith).None?
            <==> forall e :: e in edges && e.Sanctioned() && Overlaps(DecodedPath(location), e.Base())
                             ==> GoesToo(location, alongWith, e.referrer)
  {
    hide Within, DecodedPath, Sorted, Overlaps;
    var verdict := ProtectsFromDeletion(refs, location, alongWith);
    if verdict.None? {
      forall e | e in edges && e.Sanctioned() && Overlaps(DecodedPath(location), e.Base())
        ensures GoesToo(location, alongWith, e.referrer)
      {
        RootsAreTheSanctionedBases(refs, edges, e.Base());
        assert HeldBy(edges, e.Base(), e.referrer);
      }
    } else {
      RootsAreTheSanctionedBases(refs, edges, verdict.value);
      var who :| who in refs.referrers[verdict.value] && !GoesToo(location, alongWith, who);
      assert HeldBy(edges, verdict.value, who);
    }
  }

  /** Dataset `i` of the estate reads through a base of another's where `location` is: at it, above it or beneath. */
  ghost predicate ReadsThrough<E>(
      estate: seq<Dataset>, configured: seq<string>, recordAt: Reader<E>, i: nat, ref: BasePathRef, location: string)
  {
    && ReadsBase(estate, configured, recordAt, i, ref)
    && (|| DecodedPath(ref.path) == DecodedPath(location)
        || DecodedPath(ref.path) + "/" <= DecodedPath(location)
        || DecodedPath(location) + "/" <= DecodedPath(ref.path))
  }

  lemma {:induction false} OnlyTheListedRead<E>(
      estate: seq<Dataset>, configured: seq<string>, recordAt: Reader<E>, i: nat, ref: BasePathRef, location: string)
    requires ReadsThrough(estate, configured, recordAt, i, ref, location)
    ensures i < |estate|
  {
  }

  /** End to end, over the manifests, the records and the configuration: the classification of an estate answers None
      to a delete if and only if every discovered dataset that reads through what is deleted lies in it, or in what is
      deleted along with it. */
  lemma {:induction false} DeletionIsSafe<E>(estate: seq<Dataset>, configured: seq<string>, recordAt: Reader<E>,
                          location: string, alongWith: Option<string>)
    ensures var refs := Collected(EdgesOf(estate, |estate|, configured, recordAt));
            ProtectsFromDeletion(refs, location, alongWith).None?
            <==> forall i: nat, ref :: ReadsThrough(estate, configured, recordAt, i, ref, location)
                                  ==> LiesIn(estate[i].uri, location)
                                      || (alongWith.Some? && LiesIn(estate[i].uri, alongWith.value))
  {
    hide JudgeBase, DecodedPath, Collected, ProtectsFromDeletion, EdgesOf, LiesIn, GoesToo, Judged, IsSanctioned;
    var edges := EdgesOf(estate, |estate|, configured, recordAt);
    CollectedReflects(edges);
    DeletionBreaksNobody(Collected(edges), edges, location, alongWith);
    forall e ensures GoesToo(location, alongWith, e) <==> LiesInDeleted(e, location, alongWith) {
      GoesTooExactly(location, alongWith, e);
    }
    forall i: nat, ref | ReadsThrough(estate, configured, recordAt, i, ref, location)
      ensures i < |estate|
      ensures exists e :: e in edges && e.Sanctioned() && Overlaps(DecodedPath(location), e.Base())
                          && e.referrer == estate[i].uri
    {
      OnlyTheListedDeclare(estate, i, ref);
      var e := EdgeOf(estate, configured, recordAt, i, ref);
      JudgedExactly(estate, configured, recordAt, i, ref);
    }
    forall e | e in edges && e.Sanctioned() && Overlaps(DecodedPath(location), e.Base())
      ensures exists i: nat, ref ::
                ReadsThrough(estate, configured, recordAt, i, ref, location) && estate[i].uri == e.referrer
    {
      EdgeExactly(estate, configured, recordAt, e);
      var i: nat, ref :| DeclaresForeign(estate, i, ref)
      && e == Judged(estate, configured, recordAt, estate[i].uri, ref);
      OnlyTheListedDeclare(estate, i, ref);
      JudgedExactly(estate, configured, recordAt, i, ref);
      assert ReadsThrough(estate, configured, recordAt, i, ref, location);
    }
  }

  /** One dataset that reads through what is deleted, and lies outside all of it, is enough for a refusal. */
  lemma {:induction false} AReaderLeftBehindRefuses<E>(
      estate: seq<Dataset>, configured: seq<string>, recordAt: Reader<E>, location: string, alongWith: Option<string>,
      i: nat, ref: BasePathRef)
    requires ReadsThrough(estate, configured, recordAt, i, ref, location)
    requires !LiesIn(estate[i].uri, location) && (alongWith.Some? ==> !LiesIn(estate[i].uri, alongWith.value))
    ensures ProtectsFromDeletion(Collected(EdgesOf(estate, |estate|, configured, recordAt)), location, alongWith).Some?
  {
    hide ReadsThrough, LiesIn, ProtectsFromDeletion, Collected, EdgesOf;
    DeletionIsSafe(estate, configured, recordAt, location, alongWith);
  }

  lemma {:induction false} MeetsByPlaces(base: string, location: string)
    requires NamesALocation(location) && NamesALocation(base)
    ensures (|| DecodedPath(base) == DecodedPath(location)
             || DecodedPath(base) + "/" <= DecodedPath(location)
             || DecodedPath(location) + "/" <= DecodedPath(base))
            <==> LiesIn(base, location) || LiesIn(location, base)
  {
  }

  /** The same in terms of places: a delete of a location is answered None if and only if every dataset that reads
      through a base containing the location, or lying in it, goes with it. */
  lemma {:induction false} DeletionIsSafeByContainment<E>(
      estate: seq<Dataset>, configured: seq<string>, recordAt: Reader<E>, location: string, alongWith: Option<string>)
    requires NamesALocation(location)
    ensures var refs := Collected(EdgesOf(estate, |estate|, configured, recordAt));
            ProtectsFromDeletion(refs, location, alongWith).None?
            <==> forall i: nat, ref :: ReadsBase(estate, configured, recordAt, i, ref)
                                       && (LiesIn(ref.path, location) || LiesIn(location, ref.path))
                                       ==> LiesIn(estate[i].uri, location)
                                           || (alongWith.Some? && LiesIn(estate[i].uri, alongWith.value))
  {
    DeletionIsSafe(estate, configured, recordAt, location, alongWith);
    hide NamesALocation, DecodedPath, Collected, EdgesOf, ProtectsFromDeletion, LiesIn, DeclaresForeign;
    forall i: nat, ref
      ensures ReadsThrough(estate, configured, recordAt, i, ref, location)
              <==> ReadsBase(estate, configured, recordAt, i, ref)
                   && (LiesIn(ref.path, location) || LiesIn(location, ref.path))
    {
      if ReadsBase(estate, configured, recordAt, i, ref) {
        OnlyTheListedDeclare(estate, i, ref);
        MeetsByPlaces(ref.path, location);
      }
    }
  }

  // ---------------------------------------------------------------- rewriting

  datatype Containment = Is | Branch | Under | Ancestor

  predicate HasBranchSegment(s: string) {
    |s| >= 6 && (s[..6] == "/tree/" || HasBranchSegment(s[1..]))
  }

  /** Some segment from position `from` on is "tree", and not the last. */
  ghost predicate ATreeInside(segments: seq<string>, from: nat) {
    exists k :: from <= k < |segments| - 1 && segments[k] == "tree"
  }

  lemma {:induction false} BranchSegmentAt(s: string, i: nat)
    requires i + 6 <= |s| && s[i..i + 6] == "/tree/"
    ensures HasBranchSegment(s)
  {
    if i > 0 {
      assert s[1..][i - 1..i - 1 + 6] == s[i..i + 6];
      BranchSegmentAt(s[1..], i - 1);
    }
  }

  lemma {:induction false} WhereTheBranchSegmentIs(s: string) returns (i: nat)
    requires HasBranchSegment(s)
    ensures i + 6 <= |s| && s[i..i + 6] == "/tree/"
  {
    i := 0;
    if s[..6] != "/tree/" {
      var j := WhereTheBranchSegmentIs(s[1..]);
      i := j + 1;
      assert s[1..][j..j + 6] == s[i..i + 6];
    }
  }

  lemma {:induction false} TreeCut(a: string, b: string)
    ensures Split(a + "/tree/" + b) == Split(a) + ["tree"] + Split(b)
    ensures Split("tree/" + b) == ["tree"] + Split(b)
  {
    SplitOfOne("tree");
    SplitOfBoth("tree", b, "tree/" + b);
    assert a + "/tree/" + b == a + "/" + ("tree/" + b);
    SplitOfBoth(a, "tree/" + b, a + "/tree/" + b);
  }

  /** The string test finds a whole segment: what follows a root has "/tree/" in it exactly when one of its segments,
      the last excluded, is "tree". */
  lemma {:induction false} BranchSegmentExactly(rest: string)
    ensures HasBranchSegment("/" + rest) <==> ATreeInside(Split(rest), 0)
  {
    var s, parts := "/" + rest, Split(rest);
    if HasBranchSegment(s) {
      var i := WhereTheBranchSegmentIs(s);
      var b := s[i + 6..];
      assert s == s[..i] + "/tree/" + b;
      if i == 0 {
        assert rest == "tree/" + b by { assert s[1..] == rest; }
        TreeCut("", b);
        assert parts[0] == "tree";
      } else {
        var a := rest[..i - 1];
        assert rest == a + "/tree/" + b by { assert s[1..] == rest && s[..i][1..] == a; }
        TreeCut(a, b);
        assert parts[|Split(a)|] == "tree";
      }
    }
    if k :| 0 <= k < |parts| - 1 && parts[k] == "tree" {
      JoinOfSplit(rest);
      TreeJoined(parts, k);
    }
  }

  lemma {:induction false} TreeJoined(parts: seq<string>, k: nat)
    requires k < |parts| - 1 && parts[k] == "tree"
    ensures HasBranchSegment("/" + Join(parts))
  {
    var s, tail := "/" + Join(parts), parts[k + 1..];
    assert Join(["tree"]) == "tree";
    JoinOfBoth(["tree"], tail);
    assert ["tree"] + tail == parts[k..];
    assert Join(parts[k..]) == "tree/" + Join(tail);
    if k == 0 {
      assert parts[0..] == parts;
      assert s[0..6] == "/tree/";
      BranchSegmentAt(s, 0);
    } else {
      var head := Join(parts[..k]);
      JoinOfBoth(parts[..k], parts[k..]);
      assert parts == parts[..k] + parts[k..];
      assert s == "/" + head + "/tree/" + Join(tail);
      assert s[|head| + 1..|head| + 1 + 6] == "/tree/";
      BranchSegmentAt(s, |head| + 1);
    }
  }

  /** So for what lies strictly beneath a root it is a matter of the segments past the root's own. */
  lemma {:induction false} BranchBySegments(target: string, root: string)
    requires root + "/" <= target
    ensures HasBranchSegment(target[|root|..]) <==> ATreeInside(Split(target), |Split(root)|)
  {
    var rest := target[|root| + 1..];
    assert target == root + "/" + rest;
    assert target[|root|..] == "/" + rest;
    SplitOfBoth(root, rest, target);
    BranchSegmentExactly(rest);
    var parts, n := Split(rest), |Split(root)|;
    if k :| 0 <= k < |parts| - 1 && parts[k] == "tree" {
      assert Split(target)[n + k] == "tree";
    }
    if k :| n <= k < |Split(target)| - 1 && Split(target)[k] == "tree" {
      assert parts[k - n] == "tree";
    }
  }

  function ContainmentOf(location: string, root: string): Containment {
    var here, there := DecodedPath(location), Normalise(root);
    if here == there then Is
    else if there + "/" <= here then (if HasBranchSegment(here[|there|..]) then Branch else Under)
    else Containment.Ancestor
  }

  /** Over overlapping pairs the four relations are exhaustive and exclusive, and each is what it says. */
  lemma {:induction false} ContainmentIsExact(location: string, root: string)
    requires Normalise(root) == root && Overlaps(DecodedPath(location), root)
    ensures var here := DecodedPath(location);
            match ContainmentOf(location, root)
            case Is => here == root && !(root + "/" <= here) && !(here + "/" <= root)
            case Branch => here != root && root + "/" <= here && !(here + "/" <= root)
                           && ATreeInside(Split(here), |Split(root)|)
            case Under => here != root && root + "/" <= here && !(here + "/" <= root)
                          && !ATreeInside(Split(here), |Split(root)|)
            case Ancestor => here != root && !(root + "/" <= here) && here + "/" <= root
  {
    var here := DecodedPath(location);
    if root + "/" <= here {
      BranchBySegments(here, root);
    }
    hide DecodedPath, Normalise, HasBranchSegment, Split, ATreeInside;
  }

  /** In terms of the places themselves: of a location strictly beneath a root, the relation is Branch exactly when a
      decoded segment past the root's, the last excluded, is "tree". */
  lemma {:induction false} BranchOfAPlace(location: string, root: string)
    requires Within(root, location) && DecodedPath(root) != DecodedPath(location)
    ensures ContainmentOf(location, DecodedPath(root)) == Branch
            <==> ATreeInside(Segments(location).value, |Segments(root).value|)
  {
    DecodedPathIsNormal(root);
    DecodedPathIsNormal(location);
    OverlapIsContainment(root, location);
    BranchBySegments(DecodedPath(location), DecodedPath(root));
    hide DecodedPath, Normalise, HasBranchSegment, Split, Segments, ATreeInside;
  }

  function PinTags(refs: Refs, root: string): Option<set<string>> {
    if root in refs.protected || root !in refs.pinned then None else Some(refs.pinned[root])
  }

  /** Why compacting or reclaiming `location` is refused, as the relation that refuses it. */
  function RewriteRefusal(refs: Refs, location: string, tags: set<string>): Option<Containment> {
    var root := IsProtected(refs, location);
    if root.None? then None
    else
      var relation := ContainmentOf(location, root.value);
      var pins := PinTags(refs, root.value);
      if relation == Branch then None
      else if relation == Is && pins.Some? && pins.value != {} && pins.value <= tags then None
      else Some(relation)
  }

  /** The permit a branch inside a referenced root gets. */
  predicate UsesTheBranchExemption(refs: Refs, location: string) {
    var root := IsProtected(refs, location);
    root.Some? && ContainmentOf(location, root.value) == Branch
  }

  ghost predicate RootsAreNormal(refs: Refs) {
    forall r :: r in refs.protected || r in refs.pinned ==> Normalise(r) == r
  }

  ghost predicate NoProtectedOverlap(refs: Refs, target: string) {
    forall r :: r in refs.protected ==> !Overlaps(target, r)
  }

  ghost predicate NoPinnedOverlap(refs: Refs, target: string) {
    forall r :: r in refs.pinned ==> !Overlaps(target, r)
  }

  /** `target` is pinned, no pinned root lies above it, and every tag that pins it is there. */
  ghost predicate PinnedInFull(refs: Refs, target: string, tags: set<string>) {
    && target in refs.pinned && refs.pinned[target] != {} && refs.pinned[target] <= tags
    && forall r :: r in refs.pinned ==> !(r + "/" <= target)
  }

  /** Among the sorted pinned roots a location stands after every root above it and before every root
      beneath it. So where the location is pinned, the first overlapping root is it or one above it; and if
      it is the location, none stands above. */
  lemma {:induction false} PinnedLocationComesFirst(refs: Refs, target: string, i: nat)
    requires NoProtectedOverlap(refs, target) && IsFirst(Roots(refs), target, i)
    ensures Roots(refs)[i] in refs.pinned && Roots(refs)[i] !in refs.protected
    ensures target in refs.pinned ==> Roots(refs)[i] == target || Roots(refs)[i] + "/" <= target
    ensures Roots(refs)[i] == target ==> forall r :: r in refs.pinned ==> !(r + "/" <= target)
  {
    FirstIsLeast(refs, target, i);
    var first := Roots(refs)[i];
    hide Roots, Sorted;
    assert Overlaps(target, target);
    if target in refs.pinned && target + "/" <= first {
      PrefixIsAtMost(target, first);
      AtMostIsTotal(target, first);
    }
    if first == target {
      forall r | r in refs.pinned && r + "/" <= target ensures false {
        PrefixIsAtMost(r, target);
        AtMostIsTotal(r, target);
      }
    }
  }

  /** A rewrite is permitted, the branch exemption aside, exactly when no unconditionally protected root
      overlaps it, and either no pinned root does or the location is itself the outermost pinned root there
      and carries every tag that pins it. */
  lemma {:induction false} RewriteIsPermittedExactlyWhen(refs: Refs, location: string, tags: set<string>)
    requires RootsAreNormal(refs)
    ensures var target := DecodedPath(location);
            RewriteRefusal(refs, location, tags).None? && !UsesTheBranchExemption(refs, location)
            <==> NoProtectedOverlap(refs, target) && (NoPinnedOverlap(refs, target) || PinnedInFull(refs, target, tags))
  {
    hide DecodedPath, Normalise, HasBranchSegment, Sorted;
    var target, roots := DecodedPath(location), Roots(refs);
    var root := IsProtected(refs, location);
    if root.None? {
      assert forall r :: r in refs.protected ==> r in roots;
      assert forall r :: r in refs.pinned ==> r in roots;
    } else {
      var i :| 0 <= i < |roots| && IsFirst(roots, target, i) && roots[i] == root.value;
      assert root.value in refs.protected || root.value in refs.pinned;
      ContainmentIsExact(location, root.value);
      if NoProtectedOverlap(refs, target) {
        PinnedLocationComesFirst(refs, target, i);
        assert !NoPinnedOverlap(refs, target);
      } else if root.value !in refs.protected {
        ProtectedComesFirst(refs, target, i);
      }
    }
  }

  lemma {:induction false} ProtectedComesFirst(refs: Refs, target: string, i: nat)
    requires IsFirst(Roots(refs), target, i) && !NoProtectedOverlap(refs, target)
    ensures Roots(refs)[i] in refs.protected
  {
    FirstIsLeast(refs, target, i);
  }

  // ---------------------------------------------------------------- the branch exemption

  /** The roots the first overlapping one is found among: the protected where one overlaps, else the pinned. */
  ghost function Among(refs: Refs, target: string): set<string> {
    if NoProtectedOverlap(refs, target) then refs.pinned.Keys else refs.protected
  }

  /** The topmost of the roots strictly above `target`. */
  ghost predicate Outermost(among: set<string>, target: string, root: string) {
    && root in among && root + "/" <= target
    && forall r :: r in among && r + "/" <= target ==> |root| <= |r|
  }

  /** Between the topmost root above `target` and the last segment of `target` there is a segment "tree". */
  ghost predicate InABranch(among: set<string>, target: string) {
    exists root :: Outermost(among, target, root) && ATreeInside(Split(target), |Split(root)|)
  }

  ghost predicate Exempt(refs: Refs, target: string) {
    InABranch(refs.protected, target) || (NoProtectedOverlap(refs, target) && InABranch(refs.pinned.Keys, target))
  }

  /** The root a verdict asks comes first in text order among the roots of its kind that overlap. */
  lemma {:induction false} TheAskedRoot(refs: Refs, location: string)
    ensures var target, root := DecodedPath(location), IsProtected(refs, location);
            && (root.None? <==> NoProtectedOverlap(refs, target) && NoPinnedOverlap(refs, target))
            && (root.Some? ==> root.value in Among(refs, target) && Overlaps(target, root.value))
            && (root.Some? ==> forall r :: r in Among(refs, target) && Overlaps(target, r) ==> AtMost(root.value, r))
  {
    hide DecodedPath, Overlaps, Sorted, AtMost;
    var target, roots := DecodedPath(location), Roots(refs);
    var root := IsProtected(refs, location);
    RootsAreBoth(refs);
    hide Roots;
    if root.Some? {
      var i :| 0 <= i < |roots| && IsFirst(roots, target, i) && roots[i] == root.value;
      FirstIsLeast(refs, target, i);
    }
  }

  lemma {:induction false} RootsAreBoth(refs: Refs)
    ensures forall r :: r in Roots(refs) <==> r in refs.protected || r in refs.pinned
  {
    hide Sorted;
  }

  lemma {:induction false} FirstIsLeast(refs: Refs, target: string, i: nat)
    requires IsFirst(Roots(refs), target, i)
    ensures Roots(refs)[i] in Among(refs, target)
    ensures forall r :: r in Among(refs, target) && Overlaps(target, r) ==> AtMost(Roots(refs)[i], r)
  {
    hide Overlaps, IsFirst, AtMost;
    var own := Sorted(Among(refs, target));
    var k := AskedAmong(refs, target, i);
    hide Roots, Among;
    FirstOfOrdered(own, target, k);
  }

  lemma {:induction false} FirstOfOrdered(own: seq<string>, target: string, k: nat)
    requires IsFirst(own, target, k) && forall i, j :: 0 <= i < j < |own| ==> AtMost(own[i], own[j])
    ensures own[k] in own && forall r :: r in own && Overlaps(target, r) ==> AtMost(own[k], r)
  {
    hide Overlaps;
    AtMostIsTotal(own[k], own[k]);
    hide AtMost;
    forall r | r in own && Overlaps(target, r) ensures AtMost(own[k], r) {
      var j :| 0 <= j < |own| && own[j] == r;
    }
  }

  /** Where the first overlapping root stands among those of its kind. */
  lemma {:induction false} AskedAmong(refs: Refs, target: string, i: nat) returns (k: nat)
    requires IsFirst(Roots(refs), target, i)
    ensures IsFirst(Sorted(Among(refs, target)), target, k) && Sorted(Among(refs, target))[k] == Roots(refs)[i]
  {
    hide Overlaps, IsFirst, Sorted;
    var front, back := Sorted(refs.protected), Sorted(refs.pinned.Keys);
    if NoProtectedOverlap(refs, target) {
      k := FirstInBack(front, back, target, i);
    } else {
      var r :| r in refs.protected && Overlaps(target, r);
      assert r in front;
      FirstInFront(front, back, target, i);
      k := i;
    }
  }

  lemma {:induction false} FirstInBack(front: seq<string>, back: seq<string>, target: string, i: nat) returns (k: nat)
    requires IsFirst(front + back, target, i) && forall r :: r in front ==> !Overlaps(target, r)
    ensures IsFirst(back, target, k) && back[k] == (front + back)[i]
  {
    hide Overlaps;
    assert forall j :: 0 <= j < |front| ==> (front + back)[j] == front[j] && front[j] in front;
    k := i - |front|;
    forall j | 0 <= j < k ensures !Overlaps(target, back[j]) {
      assert (front + back)[|front| + j] == back[j];
    }
  }

  lemma {:induction false} FirstInFront(front: seq<string>, back: seq<string>, target: string, i: nat)
    requires IsFirst(front + back, target, i) && exists r :: r in front && Overlaps(target, r)
    ensures IsFirst(front, target, i) && front[i] == (front + back)[i]
  {
    hide Overlaps;
    var r :| r in front && Overlaps(target, r);
    var j :| 0 <= j < |front| && front[j] == r;
    assert forall m :: 0 <= m < |front| ==> (front + back)[m] == front[m];
  }

  /** Text order puts what lies above before the target, and the target before what lies beneath it: so wherever a
      root lies above, the first is the topmost of those above. */
  lemma {:induction false} TheFirstIsOutermost(among: set<string>, target: string, root: string, above: string)
    requires root in among && Overlaps(target, root) && above in among && above + "/" <= target
    requires forall r :: r in among && Overlaps(target, r) ==> AtMost(root, r)
    ensures Outermost(among, target, root)
  {
    assert Overlaps(target, above);
    assert root + "/" <= target by {
      if !(root + "/" <= target) {
        assert above <= root && |above| < |root|;
        PrefixIsAtMost(above, root);
        AtMostIsTotal(above, root);
      }
    }
    forall r | r in among && r + "/" <= target ensures |root| <= |r| {
      if |r| < |root| {
        assert r == target[..|r|] && root == target[..|root|];
        assert r <= root;
        PrefixIsAtMost(r, root);
        AtMostIsTotal(r, root);
      }
    }
  }

  lemma {:induction false} OneIsOutermost(among: set<string>, target: string, a: string, b: string)
    requires Outermost(among, target, a) && Outermost(among, target, b)
    ensures a == b
  {
    assert a == target[..|a|] && b == target[..|b|];
  }

  /** The exemption is used exactly when the topmost root above the location has a branch container in the rest: of
      the unconditional roots, or of the pinned ones where no unconditional one overlaps. */
  lemma {:induction false} ExemptExactlyWhen(refs: Refs, location: string)
    requires RootsAreNormal(refs)
    ensures UsesTheBranchExemption(refs, location) <==> Exempt(refs, DecodedPath(location))
    ensures UsesTheBranchExemption(refs, location) ==>
              Outermost(Among(refs, DecodedPath(location)), DecodedPath(location), IsProtected(refs, location).value)
  {
    TheAskedRoot(refs, location);
    hide DecodedPath, Normalise, HasBranchSegment, IsProtected, AtMost;
    var target, root := DecodedPath(location), IsProtected(refs, location);
    var among := Among(refs, target);
    if root.Some? {
      ContainmentIsExact(location, root.value);
      if root.value + "/" <= target {
        TheFirstIsOutermost(among, target, root.value, root.value);
      }
    }
    forall other | Outermost(refs.protected, target, other) ensures !NoProtectedOverlap(refs, target) {
      assert Overlaps(target, other);
    }
    if Exempt(refs, target) {
      var other :| Outermost(among, target, other) && ATreeInside(Split(target), |Split(other)|);
      assert Overlaps(target, other);
      TheFirstIsOutermost(among, target, root.value, other);
      OneIsOutermost(among, target, root.value, other);
    }
  }

  /** A refusal says how the location lies to the root asked. */
  lemma {:induction false} RefusalNamesTheRelation(refs: Refs, location: string, tags: set<string>)
    requires RewriteRefusal(refs, location, tags).Some?
    ensures IsProtected(refs, location).Some?
    ensures RewriteRefusal(refs, location, tags).value
            == ContainmentOf(location, IsProtected(refs, location).value) != Branch
  {
    hide ContainmentOf, IsProtected;
  }

  /** Every rewrite: it is permitted if and only if it lies in a branch beneath the topmost root above it, or no
      unconditional root overlaps and either no pinned one does or the location is the outermost pinned root there
      and carries every tag that pins it. */
  lemma {:induction false} EveryPermit(refs: Refs, location: string, tags: set<string>)
    requires RootsAreNormal(refs)
    ensures var target := DecodedPath(location);
            RewriteRefusal(refs, location, tags).None?
            <==> || Exempt(refs, target)
                 || (NoProtectedOverlap(refs, target)
                     && (NoPinnedOverlap(refs, target) || PinnedInFull(refs, target, tags)))
  {
    RewriteIsPermittedExactlyWhen(refs, location, tags);
    ExemptExactlyWhen(refs, location);
    hide DecodedPath, IsProtected, ContainmentOf, Exempt, NoProtectedOverlap, NoPinnedOverlap, PinnedInFull;
  }

  /** The roots a classification collects are in normal form, so the theorem applies to them. */
  lemma {:induction false} CollectedRootsAreNormal(refs: Refs, edges: seq<Edge>)
    requires Reflects(refs, edges)
    requires forall e :: e in edges && e.Sanctioned() ==> NamesALocation(e.judgement.ref.path)
    ensures RootsAreNormal(refs)
  {
    hide DecodedPath, Normalise, NamesALocation, Sorted;
    forall r | r in refs.protected || r in refs.pinned ensures Normalise(r) == r {
      RootsAreTheSanctionedBases(refs, edges, r);
      assert r in Roots(refs);
      var e :| e in edges && e.Sanctioned() && e.Base() == r;
      DecodedPathIsNormal(e.judgement.ref.path);
    }
  }

  lemma {:induction false} ASanctionedBaseIsALocation<E>(
      estate: seq<Dataset>, configured: seq<string>, recordAt: Reader<E>, e: Edge)
    requires e in EdgesOf(estate, |estate|, configured, recordAt) && e.Sanctioned()
    ensures NamesALocation(e.judgement.ref.path)
  {
    hide OwnerOf, IsForeign, EdgesOf, NamesALocation, WithinStore;
    EdgesAreTheForeignBases(estate, |estate|, configured, recordAt, e);
    var i, ref :| 0 <= i < |estate| && ref in estate[i].bases && IsForeign(estate[i].uri, ref)
                  && e == Judged(estate, configured, recordAt, estate[i].uri, ref);
  }

  lemma {:induction false} ClassifiedRootsAreNormal<E>(
      estate: seq<Dataset>, configured: seq<string>, recordAt: Reader<E>)
    ensures RootsAreNormal(Collected(EdgesOf(estate, |estate|, configured, recordAt)))
  {
    hide NamesALocation, Collected, EdgesOf, Reflects, RootsAreNormal;
    var edges := EdgesOf(estate, |estate|, configured, recordAt);
    CollectedReflects(edges);
    forall x | x in edges && x.Sanctioned() ensures NamesALocation(x.judgement.ref.path) {
      ASanctionedBaseIsALocation(estate, configured, recordAt, x);
    }
    CollectedRootsAreNormal(Collected(edges), edges);
  }

  /** End to end for rewrites: whatever an estate's classification permits, either the location lies in a branch
      beneath the topmost root above it, or every dataset that reads through it pins a tag, at it or beneath it, and at
      it a tag the location carries. */
  lemma {:induction false} RewriteIsSafe<E>(
      estate: seq<Dataset>, configured: seq<string>, recordAt: Reader<E>, location: string, tags: set<string>,
      i: nat, ref: BasePathRef)
    requires RewriteRefusal(Collected(EdgesOf(estate, |estate|, configured, recordAt)), location, tags).None?
    requires ReadsThrough(estate, configured, recordAt, i, ref, location)
    ensures i < |estate|
    ensures var target := DecodedPath(location);
            || Exempt(Collected(EdgesOf(estate, |estate|, configured, recordAt)), target)
            || exists tag ::
                 && PinsTag(estate, configured, recordAt, i, ref, tag)
                 && (DecodedPath(ref.path) == target || target + "/" <= DecodedPath(ref.path))
                 && (DecodedPath(ref.path) == target ==> tag in tags)
  {
    OnlyTheListedRead(estate, configured, recordAt, i, ref, location);
    var target, root := DecodedPath(location), DecodedPath(ref.path);
    var refs := Collected(EdgesOf(estate, |estate|, configured, recordAt));
    ClassifiedRootsAreNormal(estate, configured, recordAt);
    EveryPermit(refs, location, tags);
    ProtectedExactly(estate, configured, recordAt, root);
    forall tag ensures PinsTag(estate, configured, recordAt, i, ref, tag) ==>
    root in refs.pinned && tag in refs.pinned[root] {
      PinnedExactly(estate, configured, recordAt, root, tag);
    }
    hide DecodedPath, Collected, EdgesOf, RewriteRefusal, Exempt, PinsTag, IsSanctioned, DeclaresForeign;
  }

  /** Of the roots overlapping a rewrite, only the first is asked for its tags. */
  ghost predicate GoesUnasked(refs: Refs, location: string, root: string) {
    && (root in refs.protected || root in refs.pinned) && Overlaps(DecodedPath(location), root)
    && IsProtected(refs, location) != Some(root)
  }

  /** Under the exemption every overlapping root goes unasked but one, the topmost above of the kind asked. */
  lemma {:induction false} UnaskedUnderTheExemption(refs: Refs, location: string, root: string)
    requires RootsAreNormal(refs) && UsesTheBranchExemption(refs, location)
    ensures var target := DecodedPath(location);
            GoesUnasked(refs, location, root)
            <==> && (root in refs.protected || root in refs.pinned) && Overlaps(target, root)
                 && !Outermost(Among(refs, target), target, root)
  {
    ExemptExactlyWhen(refs, location);
    hide DecodedPath, Normalise, IsProtected, Overlaps, ContainmentOf;
    var target, asked := DecodedPath(location), IsProtected(refs, location).value;
    if Outermost(Among(refs, target), target, root) {
      OneIsOutermost(Among(refs, target), target, asked, root);
    }
  }

  /** A permitted rewrite overlooks an unconditional root exactly when it is permitted as a branch beneath the topmost
      unconditional root above it and another unconditional root overlaps it. */
  lemma {:induction false} OverlookedExactlyWhen(refs: Refs, location: string, tags: set<string>)
    requires RootsAreNormal(refs) && RewriteRefusal(refs, location, tags).None?
    ensures var target := DecodedPath(location);
            (exists root :: root in refs.protected && GoesUnasked(refs, location, root))
            <==> && InABranch(refs.protected, target)
                 && exists root ::
                      root in refs.protected && Overlaps(target, root) && !Outermost(refs.protected, target, root)
  {
    EveryPermit(refs, location, tags);
    ExemptExactlyWhen(refs, location);
    hide DecodedPath, Normalise, IsProtected, ContainmentOf, RewriteRefusal, HasBranchSegment, RootsAreNormal;
    var target := DecodedPath(location);
    if InABranch(refs.protected, target) {
      var top :| Outermost(refs.protected, target, top);
      assert Overlaps(target, top);
      assert Among(refs, target) == refs.protected;
      forall root { UnaskedUnderTheExemption(refs, location, root); }
    } else {
      assert NoProtectedOverlap(refs, target);
    }
  }

  /** For a rewrite permitted outright, some overlapping pinned root goes unasked exactly when the location is
      itself pinned and another pinned root lies strictly beneath it. */
  lemma {:induction false} UnaskedOutright(refs: Refs, location: string, tags: set<string>)
    requires RootsAreNormal(refs)
    requires RewriteRefusal(refs, location, tags).None? && !UsesTheBranchExemption(refs, location)
    ensures (exists root :: GoesUnasked(refs, location, root))
            <==> && DecodedPath(location) in refs.pinned
                 && exists root :: root in refs.pinned && DecodedPath(location) + "/" <= root
  {
    RewriteIsPermittedExactlyWhen(refs, location, tags);
    hide DecodedPath, RewriteRefusal, UsesTheBranchExemption, Sorted, Normalise, RootsAreNormal, NoProtectedOverlap;
    hide IsProtected;
    var target := DecodedPath(location);
    assert Overlaps(target, target);
    if !NoPinnedOverlap(refs, target) {
      OutermostIsAsked(refs, location, tags);
      if root :| root in refs.pinned && target + "/" <= root {
        assert GoesUnasked(refs, location, root);
      }
    }
  }

  /** For every permitted rewrite, some overlapping root goes unasked exactly when: in a branch beneath the topmost
      root above it, any other root overlaps; elsewhere, the location is pinned and a pinned root lies strictly
      beneath it. */
  lemma {:induction false} UnaskedExactlyWhen(refs: Refs, location: string, tags: set<string>)
    requires RootsAreNormal(refs) && RewriteRefusal(refs, location, tags).None?
    ensures var target := DecodedPath(location);
            (exists root :: GoesUnasked(refs, location, root))
            <==> if Exempt(refs, target)
                 then exists root ::
                        && (root in refs.protected || root in refs.pinned) && Overlaps(target, root)
                        && !Outermost(Among(refs, target), target, root)
                 else target in refs.pinned && exists root :: root in refs.pinned && target + "/" <= root
  {
    ExemptExactlyWhen(refs, location);
    hide DecodedPath, RewriteRefusal, UsesTheBranchExemption, RootsAreNormal, Exempt, Among, Outermost, Overlaps;
    if UsesTheBranchExemption(refs, location) {
      forall root { UnaskedUnderTheExemption(refs, location, root); }
    } else {
      UnaskedOutright(refs, location, tags);
    }
  }

  lemma {:induction false} OutermostIsAsked(refs: Refs, location: string, tags: set<string>)
    requires NoProtectedOverlap(refs, DecodedPath(location)) && PinnedInFull(refs, DecodedPath(location), tags)
    ensures IsProtected(refs, location) == Some(DecodedPath(location))
  {
    var target, roots := DecodedPath(location), Roots(refs);
    assert Overlaps(target, target);
    hide DecodedPath, Sorted, Overlaps, NoProtectedOverlap;
    assert target in roots;
    var first := IsProtected(refs, location);
    assert first == FirstOverlapping(roots, target);
    var i :| 0 <= i < |roots| && IsFirst(roots, target, i) && roots[i] == first.value;
    PinnedLocationComesFirst(refs, target, i);
    hide Roots, IsFirst, IsProtected, FirstOverlapping;
  }
}
