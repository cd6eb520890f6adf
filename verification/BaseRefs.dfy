/**
 Which roots other datasets resolve their files through, and what that forbids
 (`lakehouse_kit/base_refs.py`): classify every declared base against its referrer's owning root, then
 answer whether a delete or a rewrite would break a referrer.

 A base record is read by the path its location decodes to (`BaseClaims.ReadsUnderEverySpelling`), so the
 reader is a function of that path; it answers an error where the source's reader raises.
 */
module BaseRefs {
  import opened Outcomes
  import opened Locations
  import opened LocationLaws
  import opened BaseJudging

  datatype Relation = Foreign | Ancestor

  datatype Finding = Finding(referrer: string, base: string, relation: Relation)

  /** `protected` roots are held unconditionally, `pinned` ones while the tags they map to exist; every root
      is a decoded path. */
  datatype Refs = Refs(
    protected: set<string>, pinned: map<string, set<string>>,
    findings: seq<Finding>, referrers: map<string, set<string>>)

  /** A discovered dataset and the bases its manifest declares. */
  datatype Dataset = Dataset(uri: string, bases: seq<BasePathRef>)

  // ---------------------------------------------------------------- the owning root

  /** The discovered locations, one per decoded path; of several spellings the last met stays. */
  function RootsOf(estate: seq<Dataset>): map<string, string>
    decreases |estate|
  {
    if estate == [] then map[]
    else
      var before, uri := RootsOf(estate[..|estate| - 1]), estate[|estate| - 1].uri;
      if NamesALocation(uri) then before[DecodedPath(uri) := uri] else before
  }

  predicate Discovered(estate: seq<Dataset>, uri: string) {
    NamesALocation(uri) && exists d :: d in estate && d.uri == uri
  }

  lemma {:induction false} RootsAreTheDiscovered(estate: seq<Dataset>)
    ensures forall k :: k in RootsOf(estate) ==>
      Discovered(estate, RootsOf(estate)[k]) && k == DecodedPath(RootsOf(estate)[k])
    ensures forall d :: d in estate && NamesALocation(d.uri) ==> DecodedPath(d.uri) in RootsOf(estate)
    decreases |estate|
  {
    hide NamesALocation, DecodedPath;
    if estate != [] {
      var n := |estate| - 1;
      RootsAreTheDiscovered(estate[..n]);
      assert estate == estate[..n] + [estate[n]];
      assert forall u :: Discovered(estate[..n], u) ==> Discovered(estate, u);
    }
  }

  predicate Contains(roots: map<string, string>, key: string, uri: string) {
    key in roots && Within(roots[key], uri)
  }

  /** The first of the roots, taken by length, that contains `uri`. */
  predicate FirstByLength(roots: map<string, string>, key: string, uri: string) {
    Contains(roots, key, uri) && forall other :: other in roots && Contains(roots, other, uri) ==> |key| <= |other|
  }

  lemma {:induction false} JoinGrows(a: seq<string>, b: seq<string>)
    requires a < b && Plain(a) && Plain(b)
    ensures |Join(a)| < |Join(b)|
  {
    StrictPrefixIsUnder(a, b);
  }

  /** Of two locations that contain a third, the one whose path is no longer contains the other. */
  lemma {:induction false} ShorterContainsLonger(a: string, b: string, uri: string)
    requires Within(a, uri) && Within(b, uri) && |DecodedPath(a)| <= |DecodedPath(b)|
    ensures Within(a, b)
    ensures |DecodedPath(a)| == |DecodedPath(b)| ==> DecodedPath(a) == DecodedPath(b)
  {
    LocationIsPlain(a);
    LocationIsPlain(b);
    hide Segments;
    var mine, its := Segments(a).value, Segments(b).value;
    if !(mine <= its) {
      assert its < mine;
      JoinGrows(its, mine);
    } else if mine != its {
      JoinGrows(mine, its);
    }
  }

  lemma {:induction false} FirstByLengthIsUnique(estate: seq<Dataset>, uri: string, a: string, b: string)
    requires FirstByLength(RootsOf(estate), a, uri) && FirstByLength(RootsOf(estate), b, uri)
    ensures a == b
  {
    hide Within, DecodedPath, NamesALocation;
    RootsAreTheDiscovered(estate);
    ShorterContainsLonger(RootsOf(estate)[a], RootsOf(estate)[b], uri);
  }

  lemma {:induction false} FirstByLengthExists(roots: map<string, string>, uri: string)
    requires exists k :: k in roots && Contains(roots, k, uri)
    ensures exists k :: FirstByLength(roots, k, uri)
  {
    hide Within;
    var among := set k | k in roots && Contains(roots, k, uri);
    var some :| some in roots && Contains(roots, some, uri);
    assert some in among;
    var least := ShortestOf(among);
    assert FirstByLength(roots, least, uri);
  }

  lemma {:induction false} ShortestOf(among: set<string>) returns (least: string)
    requires among != {}
    ensures least in among && forall k :: k in among ==> |least| <= |k|
  {
    var one :| one in among;
    var others := among - {one};
    assert forall k :: k in among <==> k == one || k in others;
    if others == {} {
      least := one;
    } else {
      var next := ShortestOf(others);
      least := if |next| < |one| then next else one;
    }
  }

  /** The owning root of `uri`: the decoded path its record is keyed by, and its spelling. */
  function OwnerOf(estate: seq<Dataset>, uri: string): (owner: (string, string))
  {
    var roots := RootsOf(estate);
    if exists k :: k in roots && Contains(roots, k, uri) then
      FirstByLengthExists(roots, uri);
      assert forall a, b :: FirstByLength(roots, a, uri) && FirstByLength(roots, b, uri) ==> a == b by {
        forall a, b | FirstByLength(roots, a, uri) && FirstByLength(roots, b, uri) ensures a == b {
          FirstByLengthIsUnique(estate, uri, a, b);
        }
      }
      var k :| k in roots && FirstByLength(roots, k, uri);
      (k, roots[k])
    else (DecodedPath(uri), uri)
  }

  /** The owner picked by length is the outermost discovered root that contains the referrer: it contains
      every other one that does. */
  lemma {:induction false} OwnerIsOutermost(estate: seq<Dataset>, uri: string, root: string)
    requires Discovered(estate, root) && Within(root, uri)
    ensures var owner := OwnerOf(estate, uri);
            && Discovered(estate, owner.1) && owner.0 == DecodedPath(owner.1)
            && Within(owner.1, uri) && Within(owner.1, root)
  {
    assert NamesALocation(root);
    RootsAreTheDiscovered(estate);
    var roots, key := RootsOf(estate), DecodedPath(root);
    DecodedPathIsInjective(root, roots[key]);
    assert Within(roots[key], uri);
    assert Contains(roots, key, uri);
    var owner := OwnerOf(estate, uri);
    ShorterContainsLonger(owner.1, root, uri);
  }

  /** A dataset no discovered root contains is its own owner: only one that names no location. */
  lemma {:induction false} OwnerOfTheUncontained(estate: seq<Dataset>, uri: string)
    requires forall root :: Discovered(estate, root) ==> !LiesIn(uri, root)
    ensures OwnerOf(estate, uri) == (DecodedPath(uri), uri)
  {
    RootsAreTheDiscovered(estate);
    var roots := RootsOf(estate);
    hide NamesALocation, DecodedPath, Within;
    forall k | k in roots ensures !Contains(roots, k, uri) {
      WithinByPath(roots[k], uri);
    }
  }

  // ---------------------------------------------------------------- classifying

  /** Judged at all: neither the dataset itself nor, in the same store, something beneath it. */
  predicate IsForeign(uri: string, ref: BasePathRef) {
    DecodedPath(ref.path) != DecodedPath(uri) && !(Within(uri, ref.path) && StoreOf(ref.path) == StoreOf(uri))
  }

  function ForeignOf(uri: string, bases: seq<BasePathRef>): (foreign: seq<BasePathRef>)
    ensures forall ref :: ref in foreign <==> ref in bases && IsForeign(uri, ref)
  {
    if bases == [] then []
    else (if IsForeign(uri, bases[0]) then [bases[0]] else []) + ForeignOf(uri, bases[1..])
  }

  type Reader<!E> = string -> Result<Option<BaseRecord>, E>

  function RecordOf<E>(answer: Result<Option<BaseRecord>, E>): Option<BaseRecord> {
    if answer.Ok? then answer.value else None
  }

  /** One judged edge of the estate: who declares the base, under which owning root, and its judgement. */
  datatype Edge = Edge(referrer: string, owner: string, judgement: Judgement) {
    function Base(): string {
      DecodedPath(judgement.ref.path)
    }

    predicate Sanctioned() {
      judgement.standing != Unrecorded
    }

    /** A recorded derivation that carries its source's tag. */
    predicate Pins() {
      && Sanctioned() && judgement.entry.Some? && judgement.entry.value.role == DerivedFrom
      && judgement.entry.value.tag.Some? && judgement.entry.value.tag.value != ""
    }
  }

  function Judged<E>(
      estate: seq<Dataset>, configured: seq<string>, recordAt: Reader<E>, uri: string, ref: BasePathRef): Edge {
    var owner := OwnerOf(estate, uri);
    Edge(uri, owner.1, JudgeBase(owner.1, ref, configured, RecordOf(recordAt(owner.0))))
  }

  function FindingOf(e: Edge): Finding {
    Finding(e.referrer, e.Base(), if Within(e.judgement.ref.path, e.owner) then Ancestor else Foreign)
  }

  /** The effect of one judgement. */
  function Entered(refs: Refs, e: Edge): Refs {
    var base := e.Base();
    if !e.Sanctioned() then refs.(findings := refs.findings + [FindingOf(e)])
    else
      var held :=
        if e.Pins() then
          refs.(pinned := refs.pinned[base := (if base in refs.pinned then refs.pinned[base] else {})
                                      + {e.judgement.entry.value.tag.value}])
        else refs.(protected := refs.protected + {base});
      held.(referrers := held.referrers[base := (if base in held.referrers then held.referrers[base] else {})
                                        + {e.referrer}])
  }

  const NOTHING := Refs({}, map[], [], map[])

  function Collected(edges: seq<Edge>): Refs
    decreases |edges|
  {
    if edges == [] then NOTHING else Entered(Collected(edges[..|edges| - 1]), edges[|edges| - 1])
  }

  function EdgesOfOne(uri: string, owner: string, judgements: seq<Judgement>): seq<Edge> {
    seq(|judgements|, i requires 0 <= i < |judgements| => Edge(uri, owner, judgements[i]))
  }

  /** The judged edges of the first `n` datasets, in the order the source meets them. */
  function EdgesOf<E>(estate: seq<Dataset>, n: nat, configured: seq<string>, recordAt: Reader<E>): seq<Edge>
    requires n <= |estate|
  {
    if n == 0 then []
    else
      var d := estate[n - 1];
      var owner := OwnerOf(estate, d.uri);
      EdgesOf(estate, n - 1, configured, recordAt)
      + EdgesOfOne(d.uri, owner.1,
                   JudgeAll(owner.1, ForeignOf(d.uri, d.bases), configured, RecordOf(recordAt(owner.0))))
  }

  lemma {:induction false} EdgesOfOneMore<E>(estate: seq<Dataset>, n: nat, configured: seq<string>, recordAt: Reader<E>)
    requires n < |estate|
    ensures var d := estate[n];
            var owner, foreign := OwnerOf(estate, d.uri), ForeignOf(d.uri, d.bases);
            var more := EdgesOfOne(d.uri, owner.1, JudgeAll(owner.1, foreign, configured, RecordOf(recordAt(owner.0))));
            && EdgesOf(estate, n + 1, configured, recordAt) == EdgesOf(estate, n, configured, recordAt) + more
            && (foreign == [] ==>
                EdgesOf(estate, n + 1, configured, recordAt) == EdgesOf(estate, n, configured, recordAt))
  {
    hide OwnerOf, ForeignOf;
  }

  ghost predicate NoneTwice(s: seq<string>) {
    forall i, j :: 0 <= i < j < |s| ==> s[i] != s[j]
  }

  method EnterAll(refs: Refs, ghost edges: seq<Edge>, uri: string, owner: string, judgements: seq<Judgement>)
    returns (more: Refs)
    requires refs == Collected(edges)
    ensures more == Collected(edges + EdgesOfOne(uri, owner, judgements))
  {
    hide Entered;
    more := refs;
    ghost var all := edges + EdgesOfOne(uri, owner, judgements);
    var i := 0;
    assert all[..|edges|] == edges;
    while i < |judgements|
      invariant 0 <= i <= |judgements|
      invariant more == Collected(all[..|edges| + i])
    {
      assert all[..|edges| + i + 1][..|edges| + i] == all[..|edges| + i];
      more := Entered(more, Edge(uri, owner, judgements[i]));
      i := i + 1;
    }
    assert all[..|edges| + i] == all;
  }

  lemma {:induction false} NothingNeedsNothing(tableRoot: string, configured: seq<string>)
    ensures !NeedsTheRecord(tableRoot, [], configured)
  {
  }

  lemma {:induction false} NothingCollected<E>(estate: seq<Dataset>, configured: seq<string>, recordAt: Reader<E>)
    ensures Collected(EdgesOf(estate, 0, configured, recordAt)) == NOTHING
  {
    hide OwnerOf, ForeignOf, Entered;
  }

  /** `records` remembers what the reader answered each owning root asked for so far. */
  ghost predicate Memo<E>(records: map<string, Option<BaseRecord>>, asked: seq<string>, recordAt: Reader<E>) {
    && NoneTwice(asked)
    && (forall k :: k in asked <==> k in records)
    && (forall k :: k in records ==> recordAt(k) == Ok(records[k]))
  }

  /** Dataset `i` has a foreign base that only the record of its owning root can answer for, and that root is kept
      under `key`. */
  predicate Asks(estate: seq<Dataset>, i: nat, configured: seq<string>, key: string) {
    i < |estate|
    && var owner := OwnerOf(estate, estate[i].uri);
       owner.0 == key && NeedsTheRecord(owner.1, ForeignOf(estate[i].uri, estate[i].bases), configured)
  }

  /** The keys asked for are exactly those the first `n` datasets ask for. */
  ghost predicate AskedBy(estate: seq<Dataset>, n: nat, configured: seq<string>, asked: seq<string>) {
    forall key :: key in asked <==> exists i: nat :: i < n && Asks(estate, i, configured, key)
  }

  lemma {:induction false} OnlyTheListedAsk(estate: seq<Dataset>, i: nat, configured: seq<string>, key: string)
    requires Asks(estate, i, configured, key)
    ensures i < |estate|
  {
  }

  lemma {:induction false} AskedByOneMore(
      estate: seq<Dataset>, n: nat, configured: seq<string>, asked: seq<string>, more: seq<string>)
    requires n < |estate| && AskedBy(estate, n, configured, asked)
    requires forall key :: key in more <==> key in asked || Asks(estate, n, configured, key)
    ensures AskedBy(estate, n + 1, configured, more)
  {
    hide Asks;
    forall key ensures key in more <==> exists i: nat :: i < n + 1 && Asks(estate, i, configured, key) {
      if Asks(estate, n, configured, key) {
        assert key in more;
      }
      if key in asked {
        var i: nat :| i < n && Asks(estate, i, configured, key);
      }
    }
  }

  /** One dataset's turn: its foreign bases judged and entered, the owner's record read if it is needed and
      not remembered. */
  method ClassifyOne<E>(estate: seq<Dataset>, n: nat, configured: seq<string>, recordAt: Reader<E>,
                        refs: Refs, records: map<string, Option<BaseRecord>>, asked: seq<string>)
    returns (failed: Option<E>, refs': Refs, records': map<string, Option<BaseRecord>>, asked': seq<string>)
    requires n < |estate| && Memo(records, asked, recordAt)
    requires refs == Collected(EdgesOf(estate, n, configured, recordAt))
    ensures NoneTwice(asked')
    ensures forall key :: key in asked' <==> key in asked || Asks(estate, n, configured, key)
    ensures failed.Some? <==> exists key :: Asks(estate, n, configured, key) && recordAt(key).Err?
    ensures failed.None? ==>
            Memo(records', asked', recordAt) && refs' == Collected(EdgesOf(estate, n + 1, configured, recordAt))
    ensures failed.Some? ==> asked' != [] && recordAt(asked'[|asked'| - 1]) == Err(failed.value)
  {
    hide OwnerOf, ForeignOf, Collected, EdgesOf, EdgesOfOne, NeedsTheRecord, JudgeAll;
    hide NamesALocation, StoreOf, Within, IsConfigured;
    refs', records', asked' := refs, records, asked;
    var d := estate[n];
    var owner := OwnerOf(estate, d.uri);
    var foreign := ForeignOf(d.uri, d.bases);
    EdgesOfOneMore(estate, n, configured, recordAt);
    NothingNeedsNothing(owner.1, configured);
    assert forall key :: Asks(estate, n, configured, key) ==> key == owner.0;
    if foreign != [] {
      var load := if owner.0 in records then Ok(records[owner.0]) else recordAt(owner.0);
      assert load == recordAt(owner.0);
      var judged, loads := JudgeBases(owner.1, foreign, configured, load);
      if loads > 0 && owner.0 !in records {
        asked' := asked + [owner.0];
        if load.Ok? {
          records' := records[owner.0 := load.value];
        }
      }
      assert Asks(estate, n, configured, owner.0) <==> loads == 1;
      if judged.Err? {
        return Some(judged.error), refs', records', asked';
      }
      refs' := EnterAll(refs, EdgesOf(estate, n, configured, recordAt), d.uri, owner.1, judged.value);
    }
    return None, refs', records', asked';
  }

  /** `classify_base_refs`: the refs collected from every judged edge of the estate. Each owning root's record is
      asked for at most once, and only where some dataset of it has a base nothing else settles; it fails exactly
      when one of those records cannot be read, with that reader's error. */
  method ClassifyBaseRefs<E>(estate: seq<Dataset>, configured: seq<string>, recordAt: Reader<E>)
    returns (classified: Result<Refs, E>, asked: seq<string>)
    ensures classified.Ok? ==> classified.value == Collected(EdgesOf(estate, |estate|, configured, recordAt))
    ensures classified.Err? ==> asked != [] && recordAt(asked[|asked| - 1]) == Err(classified.error)
    ensures classified.Err? <==> exists i: nat, key :: Asks(estate, i, configured, key) && recordAt(key).Err?
    ensures NoneTwice(asked)
    ensures forall key :: key in asked ==> exists i: nat :: Asks(estate, i, configured, key)
    ensures classified.Ok? ==> AskedBy(estate, |estate|, configured, asked)
  {
    hide OwnerOf, ForeignOf, Collected, EdgesOf, Asks;
    NothingCollected(estate, configured, recordAt);
    var records: map<string, Option<BaseRecord>> := map[];
    var refs := NOTHING;
    asked := [];
    var n := 0;
    while n < |estate|
      invariant 0 <= n <= |estate|
      invariant refs == Collected(EdgesOf(estate, n, configured, recordAt))
      invariant Memo(records, asked, recordAt) && AskedBy(estate, n, configured, asked)
    {
      var failed;
      ghost var before := asked;
      failed, refs, records, asked := ClassifyOne(estate, n, configured, recordAt, refs, records, asked);
      AskedByOneMore(estate, n, configured, before, asked);
      if failed.Some? {
        return Err(failed.value), asked;
      }
      n := n + 1;
    }
    forall i: nat, key | Asks(estate, i, configured, key) ensures recordAt(key).Ok? {
      OnlyTheListedAsk(estate, i, configured, key);
      assert key in asked;
    }
    return Ok(refs), asked;
  }

  /** The edges are exactly the foreign bases of the discovered datasets, judged against their owners. */
  lemma {:induction false} EdgesAreTheForeignBases<E>(
      estate: seq<Dataset>, n: nat, configured: seq<string>, recordAt: Reader<E>, e: Edge)
    requires n <= |estate|
    ensures e in EdgesOf(estate, n, configured, recordAt)
            <==> exists i, ref :: 0 <= i < n && ref in estate[i].bases && IsForeign(estate[i].uri, ref)
                                  && e == Judged(estate, configured, recordAt, estate[i].uri, ref)
  {
    hide OwnerOf, IsForeign, JudgeBase, ForeignOf, RecordOf;
    if n > 0 {
      EdgesAreTheForeignBases(estate, n - 1, configured, recordAt, e);
      var d := estate[n - 1];
      var owner := OwnerOf(estate, d.uri);
      var foreign := ForeignOf(d.uri, d.bases);
      var own := EdgesOfOne(d.uri, owner.1, JudgeAll(owner.1, foreign, configured, RecordOf(recordAt(owner.0))));
      assert forall k :: 0 <= k < |foreign| ==> own[k] == Judged(estate, configured, recordAt, d.uri, foreign[k]);
      if e in own {
        var k :| 0 <= k < |own| && own[k] == e;
        assert foreign[k] in foreign;
      }
      if ref :| ref in d.bases && IsForeign(d.uri, ref) && e == Judged(estate, configured, recordAt, d.uri, ref) {
        assert ref in foreign;
        var k :| 0 <= k < |foreign| && foreign[k] == ref;
        assert own[k] in own;
      }
    }
  }

  // ---------------------------------------------------------------- what the collected refs say

  ghost predicate HeldBy(edges: seq<Edge>, root: string, referrer: string) {
    exists e :: e in edges && e.Sanctioned() && e.Base() == root && e.referrer == referrer
  }

  ghost predicate ProtectedBy(edges: seq<Edge>, root: string) {
    exists e :: e in edges && e.Sanctioned() && !e.Pins() && e.Base() == root
  }

  ghost predicate PinnedBy(edges: seq<Edge>, root: string, tag: string) {
    exists e :: e in edges && e.Pins() && e.Base() == root && e.judgement.entry.value.tag.value == tag
  }

  /** An unsanctioned edge, and how its base lies to its owner. */
  ghost predicate FoundBy(edges: seq<Edge>, f: Finding) {
    exists e :: e in edges && !e.Sanctioned() && f == FindingOf(e)
  }

  /** `refs` says of the edges exactly what they are. */
  ghost predicate Reflects(refs: Refs, edges: seq<Edge>) {
    && (forall root :: root in refs.protected <==> ProtectedBy(edges, root))
    && (forall root, tag :: root in refs.pinned && tag in refs.pinned[root] <==> PinnedBy(edges, root, tag))
    && (forall root :: root in refs.pinned ==> refs.pinned[root] != {})
    && (forall root, who :: root in refs.referrers && who in refs.referrers[root] <==> HeldBy(edges, root, who))
    && (forall f :: f in refs.findings <==> FoundBy(edges, f))
  }

  lemma {:induction false} FoundByOneMore(findings: seq<Finding>, edges: seq<Edge>, e: Edge)
    requires forall f :: f in findings <==> FoundBy(edges, f)
    ensures var more := if e.Sanctioned() then findings else findings + [FindingOf(e)];
            forall f :: f in more <==> FoundBy(edges + [e], f)
  {
    hide Within;
    var more := if e.Sanctioned() then findings else findings + [FindingOf(e)];
    forall f ensures f in more <==> FoundBy(edges + [e], f) {
      if FoundBy(edges, f) {
        var x :| x in edges && !x.Sanctioned() && f == FindingOf(x);
        assert x in edges + [e];
      }
      assert e in edges + [e];
      if FoundBy(edges + [e], f) && f !in findings {
        var x :| x in edges + [e] && !x.Sanctioned() && f == FindingOf(x);
        assert x !in edges;
      }
    }
  }

  lemma {:induction false} HeldByOneMore(edges: seq<Edge>, e: Edge, root: string, who: string, tag: string)
    ensures HeldBy(edges + [e], root, who)
            <==> HeldBy(edges, root, who) || (e.Sanctioned() && e.Base() == root && e.referrer == who)
    ensures ProtectedBy(edges + [e], root)
            <==> ProtectedBy(edges, root) || (e.Sanctioned() && !e.Pins() && e.Base() == root)
    ensures PinnedBy(edges + [e], root, tag)
            <==> PinnedBy(edges, root, tag)
                 || (e.Pins() && e.Base() == root && e.judgement.entry.value.tag.value == tag)
  {
    assert forall x :: x in edges ==> x in edges + [e];
    assert e in edges + [e];
  }

  lemma {:induction false} CollectedReflects(edges: seq<Edge>)
    ensures Reflects(Collected(edges), edges)
    decreases |edges|
  {
    if edges != [] {
      var n := |edges| - 1;
      var before, e := edges[..n], edges[n];
      CollectedReflects(before);
      assert edges == before + [e];
      EnteringReflects(Collected(before), before, e);
    }
  }

  lemma {:induction false} EnteringReflects(refs: Refs, before: seq<Edge>, e: Edge)
    requires Reflects(refs, before)
    ensures Reflects(Entered(refs, e), before + [e])
  {
    hide ProtectedBy, PinnedBy, HeldBy, Within;
    FoundByOneMore(refs.findings, before, e);
    hide FindingOf, FoundBy;
    var more := Entered(refs, e);
    forall root ensures root in more.protected <==> ProtectedBy(before + [e], root) {
      HeldByOneMore(before, e, root, "", "");
    }
    forall root, tag ensures root in more.pinned && tag in more.pinned[root] <==> PinnedBy(before + [e], root, tag) {
      HeldByOneMore(before, e, root, "", tag);
    }
    forall root, who
      ensures root in more.referrers && who in more.referrers[root] <==> HeldBy(before + [e], root, who)
    {
      HeldByOneMore(before, e, root, who, "");
    }
  }

  // ---------------------------------------------------------------- the classification, base by base

  /** Dataset `i` declares `ref`, and it is another's: not the dataset's own place, and not inside it on its store. */
  ghost predicate DeclaresForeign(estate: seq<Dataset>, i: nat, ref: BasePathRef) {
    && i < |estate| && ref in estate[i].bases
    && DecodedPath(ref.path) != DecodedPath(estate[i].uri)
    && !(StoreOf(ref.path) == StoreOf(estate[i].uri) && LiesIn(ref.path, estate[i].uri))
  }

  /** What sanctions it: the owning root's own storage, the configuration, or the owning root's record. */
  ghost predicate IsSanctioned<E>(
      estate: seq<Dataset>, configured: seq<string>, recordAt: Reader<E>, i: nat, ref: BasePathRef)
    requires i < |estate|
  {
    var owner := OwnerOf(estate, estate[i].uri);
    && NamesALocation(ref.path)
    && (|| (StoreOf(owner.1) == StoreOf(ref.path) && LiesIn(ref.path, owner.1))
        || IsConfigured(ref, configured)
        || IsRecorded(ref, RecordOf(recordAt(owner.0))))
  }

  /** The entry it stands by, when it stands by the record: the first to match, where nothing else sanctions it. */
  ghost predicate StandsBy<E>(
      estate: seq<Dataset>, configured: seq<string>, recordAt: Reader<E>, i: nat, ref: BasePathRef, e: RecordedBase)
    requires i < |estate|
  {
    var owner := OwnerOf(estate, estate[i].uri);
    var record := RecordOf(recordAt(owner.0));
    && NamesALocation(ref.path) && !IsConfigured(ref, configured)
    && !(StoreOf(owner.1) == StoreOf(ref.path) && LiesIn(ref.path, owner.1))
    && record.Some? && exists k :: FirstToMatch(record.value.entries, ref, k) && record.value.entries[k] == e
  }

  /** It pins `tag`: it stands by the entry of a derivation that names that tag. */
  ghost predicate PinsTag<E>(
      estate: seq<Dataset>, configured: seq<string>, recordAt: Reader<E>, i: nat, ref: BasePathRef, tag: string)
    requires i < |estate|
  {
    exists e ::
      StandsBy(estate, configured, recordAt, i, ref, e) && e.role == DerivedFrom && e.tag == Some(tag) && tag != ""
  }

  lemma {:induction false} ForeignExactly(uri: string, ref: BasePathRef)
    ensures IsForeign(uri, ref)
            <==> && DecodedPath(ref.path) != DecodedPath(uri)
                 && !(StoreOf(ref.path) == StoreOf(uri) && LiesIn(ref.path, uri))
  {
    WithinByPath(uri, ref.path);
  }

  lemma {:induction false} OneFirstMatch(entries: seq<RecordedBase>, ref: BasePathRef, j: int, k: int)
    requires FirstToMatch(entries, ref, j) && FirstToMatch(entries, ref, k)
    ensures j == k
  {
    hide Matches;
  }

  /** The judgement of a declared base in those terms. */
  lemma {:induction false} JudgedExactly<E>(
      estate: seq<Dataset>, configured: seq<string>, recordAt: Reader<E>, i: nat, ref: BasePathRef)
    requires i < |estate|
    ensures var e := Judged(estate, configured, recordAt, estate[i].uri, ref);
            && e.referrer == estate[i].uri && e.owner == OwnerOf(estate, estate[i].uri).1
            && e.Base() == DecodedPath(ref.path) && e.judgement.ref == ref
            && (e.Sanctioned() <==> IsSanctioned(estate, configured, recordAt, i, ref))
            && (forall x :: e.judgement.entry == Some(x) <==> StandsBy(estate, configured, recordAt, i, ref, x))
            && (e.Pins() <==> exists tag :: PinsTag(estate, configured, recordAt, i, ref, tag))
            && (e.Pins() ==> PinsTag(estate, configured, recordAt, i, ref, e.judgement.entry.value.tag.value))
            && (forall tag :: PinsTag(estate, configured, recordAt, i, ref, tag) ==>
                e.judgement.entry.value.tag == Some(tag))
  {
    var owner := OwnerOf(estate, estate[i].uri);
    var record := RecordOf(recordAt(owner.0));
    StandingExactly(owner.1, ref, configured, record);
    WithinByPath(owner.1, ref.path);
    hide NamesALocation, DecodedPath, Within, OwnerOf, StoreOf, LiesIn, IsConfigured, JudgeBase, Matches, Normalise;
    var judgement := JudgeBase(owner.1, ref, configured, record);
    if judgement.entry.Some? {
      var k :| FirstToMatch(record.value.entries, ref, k) && record.value.entries[k] == judgement.entry.value;
      forall j | FirstToMatch(record.value.entries, ref, j) ensures j == k {
        OneFirstMatch(record.value.entries, ref, j, k);
      }
    }
    forall k | record.Some? && FirstToMatch(record.value.entries, ref, k) ensures IsRecorded(ref, record) {
      MatchIsOfThePlace(record.value.entries[k], ref);
      assert record.value.entries[k] in record.value.entries;
    }
    assert forall x :: judgement.entry == Some(x) <==> StandsBy(estate, configured, recordAt, i, ref, x);
    hide StandsBy;
    if judgement.entry.Some? && judgement.entry.value.tag.Some? {
      var x := judgement.entry.value;
      assert PinsTag(estate, configured, recordAt, i, ref, x.tag.value)
             <==> x.role == DerivedFrom && x.tag.value != "";
    }
  }

  lemma {:induction false} MatchIsOfThePlace(e: RecordedBase, ref: BasePathRef)
    requires Matches(e, ref)
    ensures e.isDatasetRoot == ref.isDatasetRoot && e.path == Normalise(ref.path) && e.store == StoreOf(ref.path)
  {
  }

  /** A sanctioned base of another's. */
  ghost predicate ReadsBase<E>(
      estate: seq<Dataset>, configured: seq<string>, recordAt: Reader<E>, i: nat, ref: BasePathRef)
  {
    DeclaresForeign(estate, i, ref) && IsSanctioned(estate, configured, recordAt, i, ref)
  }

  lemma {:induction false} EdgeExactly<E>(estate: seq<Dataset>, configured: seq<string>, recordAt: Reader<E>, e: Edge)
    ensures e in EdgesOf(estate, |estate|, configured, recordAt)
            <==> exists i: nat, ref ::
                   DeclaresForeign(estate, i, ref) && e == Judged(estate, configured, recordAt, estate[i].uri, ref)
  {
    EdgesAreTheForeignBases(estate, |estate|, configured, recordAt, e);
    hide Judged, EdgesOf, DecodedPath, StoreOf, LiesIn, IsForeign;
    forall i: nat, ref | i < |estate|
      ensures DeclaresForeign(estate, i, ref) <==> ref in estate[i].bases && IsForeign(estate[i].uri, ref)
    {
      ForeignExactly(estate[i].uri, ref);
    }
  }

  /** The edge of a declared base is among the judged ones. */
  lemma {:induction false} EdgeOf<E>(
      estate: seq<Dataset>, configured: seq<string>, recordAt: Reader<E>, i: nat, ref: BasePathRef) returns (e: Edge)
    requires DeclaresForeign(estate, i, ref)
    ensures e in EdgesOf(estate, |estate|, configured, recordAt)
    ensures e == Judged(estate, configured, recordAt, estate[i].uri, ref)
  {
    OnlyTheListedDeclare(estate, i, ref);
    hide Judged, EdgesOf, DeclaresForeign;
    e := Judged(estate, configured, recordAt, estate[i].uri, ref);
    EdgeExactly(estate, configured, recordAt, e);
  }

  /** A root is held unconditionally exactly when some dataset reads through it without pinning a tag. */
  lemma {:induction false} ProtectedExactly<E>(
      estate: seq<Dataset>, configured: seq<string>, recordAt: Reader<E>, root: string)
    ensures root in Collected(EdgesOf(estate, |estate|, configured, recordAt)).protected
            <==> exists i: nat, ref ::
                   && ReadsBase(estate, configured, recordAt, i, ref) && DecodedPath(ref.path) == root
                   && forall tag :: !PinsTag(estate, configured, recordAt, i, ref, tag)
  {
    var edges := EdgesOf(estate, |estate|, configured, recordAt);
    CollectedReflects(edges);
    hide Judged, EdgesOf, Collected, IsSanctioned, PinsTag, DeclaresForeign, DecodedPath;
    if ProtectedBy(edges, root) {
      var e :| e in edges && e.Sanctioned() && !e.Pins() && e.Base() == root;
      EdgeExactly(estate, configured, recordAt, e);
      var i: nat, ref :| DeclaresForeign(estate, i, ref)
      && e == Judged(estate, configured, recordAt, estate[i].uri, ref);
      assert i < |estate| by { OnlyTheListedDeclare(estate, i, ref); }
      JudgedExactly(estate, configured, recordAt, i, ref);
      assert ReadsBase(estate, configured, recordAt, i, ref);
    }
    if i: nat, ref :| ReadsBase(estate, configured, recordAt, i, ref) && DecodedPath(ref.path) == root
                      && forall tag :: !PinsTag(estate, configured, recordAt, i, ref, tag) {
      var e := EdgeOf(estate, configured, recordAt, i, ref);
      JudgedExactly(estate, configured, recordAt, i, ref);
      assert ProtectedBy(edges, root);
    }
  }

  lemma {:induction false} OnlyTheListedDeclare(estate: seq<Dataset>, i: nat, ref: BasePathRef)
    requires DeclaresForeign(estate, i, ref)
    ensures i < |estate|
  {
  }

  /** A root is pinned by a tag exactly when some dataset reads through it and pins that tag. */
  lemma {:induction false} PinnedExactly<E>(
      estate: seq<Dataset>, configured: seq<string>, recordAt: Reader<E>, root: string, tag: string)
    ensures var refs := Collected(EdgesOf(estate, |estate|, configured, recordAt));
            (root in refs.pinned && tag in refs.pinned[root])
            <==> exists i: nat, ref ::
                   && ReadsBase(estate, configured, recordAt, i, ref) && DecodedPath(ref.path) == root
                   && PinsTag(estate, configured, recordAt, i, ref, tag)
  {
    var edges := EdgesOf(estate, |estate|, configured, recordAt);
    CollectedReflects(edges);
    hide Judged, EdgesOf, Collected, IsSanctioned, PinsTag, DeclaresForeign, DecodedPath;
    if PinnedBy(edges, root, tag) {
      var e :| e in edges && e.Pins() && e.Base() == root && e.judgement.entry.value.tag.value == tag;
      EdgeExactly(estate, configured, recordAt, e);
      var i: nat, ref :| DeclaresForeign(estate, i, ref)
      && e == Judged(estate, configured, recordAt, estate[i].uri, ref);
      assert i < |estate| by { OnlyTheListedDeclare(estate, i, ref); }
      JudgedExactly(estate, configured, recordAt, i, ref);
      assert ReadsBase(estate, configured, recordAt, i, ref);
    }
    if i: nat, ref :| ReadsBase(estate, configured, recordAt, i, ref) && DecodedPath(ref.path) == root
                      && PinsTag(estate, configured, recordAt, i, ref, tag) {
      var e := EdgeOf(estate, configured, recordAt, i, ref);
      JudgedExactly(estate, configured, recordAt, i, ref);
      assert PinnedBy(edges, root, tag);
    }
  }

  /** A dataset is a referrer of a root exactly when it reads through it. */
  lemma {:induction false} ReferrerExactly<E>(
      estate: seq<Dataset>, configured: seq<string>, recordAt: Reader<E>, root: string, who: string)
    ensures var refs := Collected(EdgesOf(estate, |estate|, configured, recordAt));
            (root in refs.referrers && who in refs.referrers[root])
            <==> exists i: nat, ref ::
                   ReadsBase(estate, configured, recordAt, i, ref) && DecodedPath(ref.path) == root
                   && estate[i].uri == who
  {
    var edges := EdgesOf(estate, |estate|, configured, recordAt);
    CollectedReflects(edges);
    hide Judged, EdgesOf, Collected, IsSanctioned, PinsTag, DeclaresForeign, DecodedPath;
    if HeldBy(edges, root, who) {
      var e :| e in edges && e.Sanctioned() && e.Base() == root && e.referrer == who;
      EdgeExactly(estate, configured, recordAt, e);
      var i: nat, ref :| DeclaresForeign(estate, i, ref)
      && e == Judged(estate, configured, recordAt, estate[i].uri, ref);
      assert i < |estate| by { OnlyTheListedDeclare(estate, i, ref); }
      JudgedExactly(estate, configured, recordAt, i, ref);
      assert ReadsBase(estate, configured, recordAt, i, ref);
    }
    if i: nat, ref :| ReadsBase(estate, configured, recordAt, i, ref) && DecodedPath(ref.path) == root
                      && estate[i].uri == who {
      var e := EdgeOf(estate, configured, recordAt, i, ref);
      JudgedExactly(estate, configured, recordAt, i, ref);
      assert HeldBy(edges, root, who);
    }
  }

  /** A finding is reported exactly for every base of another's that nothing sanctions, and says whether the owning
      root lies in it. */
  lemma {:induction false} FindingExactly<E>(
      estate: seq<Dataset>, configured: seq<string>, recordAt: Reader<E>, f: Finding)
    ensures f in Collected(EdgesOf(estate, |estate|, configured, recordAt)).findings
            <==> exists i: nat, ref ::
                   && DeclaresForeign(estate, i, ref) && !IsSanctioned(estate, configured, recordAt, i, ref)
                   && f.referrer == estate[i].uri && f.base == DecodedPath(ref.path)
                   && (f.relation == Ancestor <==> LiesIn(OwnerOf(estate, estate[i].uri).1, ref.path))
  {
    var edges := EdgesOf(estate, |estate|, configured, recordAt);
    CollectedReflects(edges);
    hide Judged, EdgesOf, Collected, IsSanctioned, PinsTag, DeclaresForeign, DecodedPath, LiesIn, Within, OwnerOf;
    if FoundBy(edges, f) {
      var e :| e in edges && !e.Sanctioned() && f == FindingOf(e);
      EdgeExactly(estate, configured, recordAt, e);
      var i: nat, ref :| DeclaresForeign(estate, i, ref)
      && e == Judged(estate, configured, recordAt, estate[i].uri, ref);
      assert i < |estate| by { OnlyTheListedDeclare(estate, i, ref); }
      JudgedExactly(estate, configured, recordAt, i, ref);
      WithinByPath(ref.path, e.owner);
    }
    if i: nat, ref :| DeclaresForeign(estate, i, ref) && !IsSanctioned(estate, configured, recordAt, i, ref)
                      && f.referrer == estate[i].uri && f.base == DecodedPath(ref.path)
                      && (f.relation == Ancestor <==> LiesIn(OwnerOf(estate, estate[i].uri).1, ref.path)) {
      var e := EdgeOf(estate, configured, recordAt, i, ref);
      JudgedExactly(estate, configured, recordAt, i, ref);
      WithinByPath(ref.path, e.owner);
      assert FoundBy(edges, f);
    }
  }
}
