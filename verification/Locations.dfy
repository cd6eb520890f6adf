/**
 Spellings and the places they name (`lakehouse_kit/base_refs.py`): strip what precedes and
 surrounds the path, percent-decode each segment once (section 2.1 of RFC 3986), refuse whatever does not name one
 place, and compare decoded segment by decoded segment.

 A spelling is held as the octets of its UTF-8 encoding, one `char` per octet. UTF-8 is injective and
 every character the rules single out is ASCII, so each test reads the same on octets as on text.
 */
module Locations {
  import opened Outcomes

  // ---------------------------------------------------------------- splitting and joining at '/'

  function Split(s: string): (parts: seq<string>)
    ensures |parts| >= 1
    ensures forall p :: p in parts ==> '/' !in p
  {
    if s == "" then [""]
    else
      var rest := Split(s[1..]);
      if s[0] == '/' then [""] + rest else [[s[0]] + rest[0]] + rest[1..]
  }

  function Join(parts: seq<string>): string {
    if parts == [] then "" else if |parts| == 1 then parts[0] else parts[0] + "/" + Join(parts[1..])
  }

  lemma {:induction false} JoinOfSplit(s: string)
    ensures Join(Split(s)) == s
  {
    if s != "" {
      var rest := Split(s[1..]);
      JoinOfSplit(s[1..]);
      if s[0] == '/' {
        assert Split(s)[1..] == rest;
      } else {
        assert Split(s)[1..] == rest[1..];
        assert s == [s[0]] + s[1..];
      }
    }
  }

  lemma {:induction false} SplitOfBoth(s: string, t: string, whole: string)
    requires whole == s + "/" + t
    ensures Split(whole) == Split(s) + Split(t)
  {
    if s == "" {
      assert whole[0] == '/' && whole[1..] == t;
    } else {
      assert whole[0] == s[0] && whole[1..] == s[1..] + "/" + t;
      SplitOfBoth(s[1..], t, whole[1..]);
    }
  }

  lemma {:induction false} SplitOfOne(s: string)
    requires '/' !in s
    ensures Split(s) == [s]
  {
    if s != "" {
      SplitOfOne(s[1..]);
      assert s == [s[0]] + s[1..];
    }
  }

  /** Joining is injective on segments that hold no separator. */
  lemma {:induction false} SplitOfJoin(parts: seq<string>)
    requires parts != [] && forall p :: p in parts ==> '/' !in p
    ensures Split(Join(parts)) == parts
  {
    SplitOfOne(parts[0]);
    if |parts| > 1 {
      SplitOfJoin(parts[1..]);
      SplitOfBoth(parts[0], Join(parts[1..]), Join(parts));
    }
  }

  lemma {:induction false} JoinOfBoth(a: seq<string>, b: seq<string>)
    requires a != [] && b != []
    ensures Join(a + b) == Join(a) + "/" + Join(b)
  {
    assert (a + b)[1..] == a[1..] + b;
    if |a| > 1 {
      JoinOfBoth(a[1..], b);
    }
  }

  // ---------------------------------------------------------------- normalising

  predicate SchemeAt(s: string, i: nat) {
    i + 3 <= |s| && s[i..i + 3] == "://"
  }

  /** Where the first "://" of `s` at or after `i` stands. */
  function Scheme(s: string, i: nat := 0): (at: Option<nat>)
    ensures at.Some? ==> i <= at.value && SchemeAt(s, at.value)
    ensures at.None? ==> forall k: nat :: i <= k ==> !SchemeAt(s, k)
    decreases |s| - i
  {
    if i >= |s| then None else if SchemeAt(s, i) then Some(i) else Scheme(s, i + 1)
  }

  function StripLeft(s: string): string {
    if s != "" && s[0] == '/' then StripLeft(s[1..]) else s
  }

  function StripRight(s: string): string {
    if s != "" && s[|s| - 1] == '/' then StripRight(s[..|s| - 1]) else s
  }

  function Normalise(uri: string): string {
    var at := Scheme(uri);
    StripRight(StripLeft(if at.Some? then uri[at.value + 3..] else uri))
  }

  function Lower(s: string): string {
    seq(|s|, i requires 0 <= i < |s| => if 'A' <= s[i] <= 'Z' then s[i] - 'A' + 'a' else s[i])
  }

  /** Which store a spelling is of: what stands before "://" in lower case, or the file system. */
  function StoreOf(uri: string): string {
    var at := Scheme(uri);
    if at.Some? then Lower(uri[..at.value]) else "file"
  }

  // ---------------------------------------------------------------- decoding one segment

  predicate IsHex(c: char) {
    '0' <= c <= '9' || 'a' <= c <= 'f' || 'A' <= c <= 'F'
  }

  function HexValue(c: char): (v: nat)
    requires IsHex(c)
    ensures v < 16
  {
    if c <= '9' then (c - '0') as nat else if c <= 'F' then (c - 'A') as nat + 10 else (c - 'a') as nat + 10
  }

  predicate Escape(s: string) {
    |s| >= 3 && s[0] == '%' && IsHex(s[1]) && IsHex(s[2])
  }

  /** An octet for every well-formed escape; every other octet, a stray '%' included, as it stands. */
  function Unquoted(s: string): string {
    if s == "" then ""
    else if Escape(s) then [(HexValue(s[1]) * 16 + HexValue(s[2])) as char] + Unquoted(s[3..])
    else [s[0]] + Unquoted(s[1..])
  }

  predicate Continues(s: string, i: nat) {
    i < |s| && 0x80 <= s[i] as int <= 0xBF
  }

  /** The octets of some text: the table of well-formed UTF-8 sequences (section 4 of RFC 3629). */
  predicate Utf8(s: string) {
    if s == "" then true
    else
      var a := s[0] as int;
      var b := if |s| > 1 then s[1] as int else 0;
      if a < 0x80 then Utf8(s[1..])
      else if 0xC2 <= a <= 0xDF then Continues(s, 1) && Utf8(s[2..])
      else if 0xE0 <= a <= 0xEF then
        && Continues(s, 1) && Continues(s, 2)
        && (a == 0xE0 ==> 0xA0 <= b) && (a == 0xED ==> b <= 0x9F)
        && Utf8(s[3..])
      else if 0xF0 <= a <= 0xF4 then
        && Continues(s, 1) && Continues(s, 2) && Continues(s, 3)
        && (a == 0xF0 ==> 0x90 <= b) && (a == 0xF4 ==> b <= 0x8F)
        && Utf8(s[4..])
      else false
  }

  function Occurrences(s: string, c: char): nat {
    if s == "" then 0 else (if s[0] == c then 1 else 0) + Occurrences(s[1..], c)
  }

  predicate ControlFree(s: string) {
    forall c :: c in s ==> !((c as int) < 0x20 || c as int == 0x7F)
  }

  /** The segment `spelled` names, or None when no store opens it as one name. */
  function Segment(spelled: string): (segment: Option<string>)
  {
    var decoded := Unquoted(spelled);
    if !Utf8(decoded) || decoded in {"", ".", ".."} || '?' in decoded then None
    else if !ControlFree(decoded) then None
    else if Occurrences(decoded, '/') > Occurrences(spelled, '/')
            || Occurrences(decoded, '\\') > Occurrences(spelled, '\\') then None
    else Some(decoded)
  }

  // ---------------------------------------------------------------- decoding a spelling

  function SegmentsOf(spelled: seq<string>): Option<seq<string>> {
    if spelled == [] then Some([])
    else
      var rest := SegmentsOf(spelled[..|spelled| - 1]);
      var last := Segment(spelled[|spelled| - 1]);
      if rest.None? || last.None? then None else Some(rest.value + [last.value])
  }

  function Segments(uri: string): Option<seq<string>> {
    var path := Normalise(uri);
    if path == "" then None else SegmentsOf(Split(path))
  }

  predicate NamesALocation(uri: string) {
    Segments(uri).Some?
  }

  /** The one form verdicts compare and key a location in. */
  function DecodedPath(uri: string): string {
    var segments := Segments(uri);
    if segments.None? then Normalise(uri) else Join(segments.value)
  }

  lemma {:induction false} SegmentIsUnquoted(spelled: string)
    requires Segment(spelled).Some?
    ensures Segment(spelled).value == Unquoted(spelled)
  {
  }

  /** `decoded_segments` as it runs: stop at the first segment that names nothing. */
  method DecodedSegments(uri: string) returns (segments: Option<seq<string>>)
    ensures segments == Segments(uri)
    ensures segments.Some? ==>
      |segments.value| == |Split(Normalise(uri))|
      && forall i :: 0 <= i < |segments.value| ==> segments.value[i] == Unquoted(Split(Normalise(uri))[i])
  {
    hide Segment, Unquoted, Normalise, Split;
    var path := Normalise(uri);
    if path == "" {
      return None;
    }
    var spelled := Split(path);
    var found: seq<string> := [];
    var i := 0;
    while i < |spelled|
      invariant 0 <= i <= |spelled| && |found| == i
      invariant SegmentsOf(spelled[..i]) == Some(found)
      invariant forall k :: 0 <= k < i ==> found[k] == Unquoted(spelled[k])
    {
      assert spelled[..i + 1][..i] == spelled[..i];
      var segment := Segment(spelled[i]);
      if segment.None? {
        NoneAnywhereIsNone(spelled, i);
        return None;
      }
      SegmentIsUnquoted(spelled[i]);
      found := found + [segment.value];
      i := i + 1;
    }
    assert spelled[..i] == spelled;
    return Some(found);
  }

  lemma {:induction false} NoneAnywhereIsNone(spelled: seq<string>, i: nat)
    requires i < |spelled| && Segment(spelled[i]).None?
    ensures SegmentsOf(spelled).None?
    decreases |spelled|
  {
    if i < |spelled| - 1 {
      NoneAnywhereIsNone(spelled[..|spelled| - 1], i);
    }
  }

  // ---------------------------------------------------------------- what decoded segments are like

  ghost predicate Plain(segments: seq<string>) {
    segments != [] && forall p :: p in segments ==> p != "" && '/' !in p
  }

  lemma {:induction false} NoOccurrence(s: string, c: char)
    ensures Occurrences(s, c) == 0 <==> c !in s
  {
    if s != "" {
      NoOccurrence(s[1..], c);
      assert s == [s[0]] + s[1..];
    }
  }

  lemma {:induction false} SegmentsArePlain(spelled: seq<string>)
    requires forall p :: p in spelled ==> '/' !in p
    requires SegmentsOf(spelled).Some?
    ensures |SegmentsOf(spelled).value| == |spelled|
    ensures forall p :: p in SegmentsOf(spelled).value ==> p != "" && '/' !in p
    ensures forall p :: p in spelled ==> p != ""
    decreases |spelled|
  {
    if spelled != [] {
      var n := |spelled| - 1;
      SegmentsArePlain(spelled[..n]);
      NoOccurrence(spelled[n], '/');
      NoOccurrence(Unquoted(spelled[n]), '/');
      assert spelled == spelled[..n] + [spelled[n]];
      assert Segment(spelled[n]).Some?;
    }
  }

  lemma {:induction false} LocationIsPlain(uri: string)
    requires NamesALocation(uri)
    ensures Plain(Segments(uri).value)
    ensures Plain(Split(Normalise(uri)))
  {
    SegmentsArePlain(Split(Normalise(uri)));
  }

  /** Two spellings that name locations decode to one path exactly when their segments agree. */
  lemma {:induction false} DecodedPathIsInjective(a: string, b: string)
    requires NamesALocation(a) && NamesALocation(b)
    ensures DecodedPath(a) == DecodedPath(b) <==> Segments(a) == Segments(b)
  {
    LocationIsPlain(a);
    LocationIsPlain(b);
    SplitOfJoin(Segments(a).value);
    SplitOfJoin(Segments(b).value);
  }

  lemma {:induction false} SegmentsOfBoth(a: seq<string>, b: seq<string>)
    requires SegmentsOf(a).Some? && SegmentsOf(b).Some?
    ensures SegmentsOf(a + b) == Some(SegmentsOf(a).value + SegmentsOf(b).value)
    decreases |b|
  {
    hide Segment;
    if b == [] {
      assert a + b == a;
      assert SegmentsOf(a).value + SegmentsOf(b).value == SegmentsOf(a).value;
    } else {
      var init, last := b[..|b| - 1], Segment(b[|b| - 1]);
      assert (a + b)[..|a + b| - 1] == a + init && (a + b)[|a + b| - 1] == b[|b| - 1];
      SegmentsOfBoth(a, init);
      assert SegmentsOf(a).value + (SegmentsOf(init).value + [last.value])
             == SegmentsOf(a).value + SegmentsOf(init).value + [last.value];
    }
  }

  /** Two normalised spellings of locations, one behind the other, spell the location of both their segments. */
  lemma {:induction false} SegmentsOfJoined(a: string, b: string)
    requires NamesALocation(a) && Normalise(a) == a && NamesALocation(b) && Normalise(b) == b
    ensures Normalise(a + "/" + b) == a + "/" + b
    ensures Segments(a + "/" + b) == Some(Segments(a).value + Segments(b).value)
  {
    hide Normalise;
    LocationIsPlain(a);
    LocationIsPlain(b);
    SplitOfBoth(a, b, a + "/" + b);
    NormalisedStays(a + "/" + b);
    SegmentsOfBoth(Split(a), Split(b));
  }

  /** A word of plain letters is its own one segment. */
  lemma {:induction false} AWordIsALocation(s: string)
    requires s != "" && forall c :: c in s ==> 'a' <= c <= 'z'
    ensures NamesALocation(s) && Normalise(s) == s && Segments(s) == Some([s])
  {
    SplitOfOne(s);
    NormalisedStays(s);
    AWordIsPlainText(s);
    assert s[0] in s;
    assert s != "." && s != ".." && '?' !in s && ControlFree(s);
    assert Segment(s) == Some(s);
    hide Segment, Normalise;
    assert [s][..0] == [];
    assert SegmentsOf([]) == Some([]) && [] + [s] == [s];
    assert SegmentsOf([s]) == Some([s]);
  }

  lemma {:induction false} AWordIsPlainText(s: string)
    requires forall c :: c in s ==> 'a' <= c <= 'z'
    ensures Unquoted(s) == s && Utf8(s)
  {
    if s != "" {
      assert s[0] in s && forall c :: c in s[1..] ==> c in s;
      AWordIsPlainText(s[1..]);
      assert s == [s[0]] + s[1..];
    }
  }

  // ---------------------------------------------------------------- normalising twice

  lemma {:induction false} PlainTextHasNoEdgeNorDoubleSlash(s: string)
    requires forall p :: p in Split(s) ==> p != ""
    ensures s != "" && s[0] != '/' && s[|s| - 1] != '/'
    ensures forall i :: 0 <= i < |s| - 1 ==> !(s[i] == '/' && s[i + 1] == '/')
  {
    assert Split(s)[0] in Split(s);
    if |s| > 1 {
      var rest := Split(s[1..]);
      if s[1] == '/' {
        assert rest == [""] + Split(s[2..]) by { assert s[1..][1..] == s[2..]; }
        assert forall p :: p in Split(s[2..]) ==> p in Split(s) by {
          assert Split(s) == [[s[0]] + ""] + Split(s[2..]);
        }
        PlainTextHasNoEdgeNorDoubleSlash(s[2..]);
        assert forall i :: 2 <= i < |s| ==> s[i] == s[2..][i - 2];
      } else {
        assert Split(s) == [[s[0]] + rest[0]] + rest[1..];
        assert rest[0] != "" by { assert rest[0] == [s[1]] + Split(s[1..][1..])[0]; }
        forall p | p in rest ensures p != "" {
          if p in rest[1..] {
            assert p in Split(s);
          }
        }
        PlainTextHasNoEdgeNorDoubleSlash(s[1..]);
        assert forall i :: 1 <= i < |s| ==> s[i] == s[1..][i - 1];
      }
    }
  }

  /** On spellings that name a location, normalising is idempotent and changes neither what they decode to
      nor, once the scheme is gone, anything else. */
  lemma {:induction false} NormaliseIsIdempotent(uri: string)
    requires NamesALocation(uri)
    ensures Normalise(Normalise(uri)) == Normalise(uri)
    ensures Segments(Normalise(uri)) == Segments(uri)
    ensures DecodedPath(Normalise(uri)) == DecodedPath(uri)
  {
    LocationIsPlain(uri);
    NormalisedStays(Normalise(uri));
  }

  lemma {:induction false} NormalisedStays(path: string)
    requires Plain(Split(path))
    ensures Normalise(path) == path && StoreOf(path) == "file"
  {
    if Scheme(path).Some? {
      var i := Scheme(path).value;
      assert path[i + 1] == "://"[1] && path[i + 1 + 1] == "://"[2] by {
        assert path[i..i + 3][1] == path[i + 1] && path[i..i + 3][2] == path[i + 1 + 1];
      }
    }
    PlainTextHasNoEdgeNorDoubleSlash(path);
  }

  /** A decoded path is already in normal form, so a verdict may normalise it again. */
  lemma {:induction false} DecodedPathIsNormal(uri: string)
    requires NamesALocation(uri)
    ensures Normalise(DecodedPath(uri)) == DecodedPath(uri)
    ensures Split(DecodedPath(uri)) == Segments(uri).value
  {
    LocationIsPlain(uri);
    SplitOfJoin(Segments(uri).value);
    NormalisedStays(DecodedPath(uri));
  }

  // ---------------------------------------------------------------- containment

  /** Containment: the decoded segments of `outer` are a prefix of those of `inner`, and both are locations. */
  predicate Within(outer: string, inner: string) {
    var there, here := Segments(outer), Segments(inner);
    there.Some? && here.Some? && there.value <= here.value
  }

  predicate WithinStore(outer: string, inner: string) {
    StoreOf(outer) == StoreOf(inner) && Within(outer, inner)
  }

  /** `_overlaps`: the string test on decoded paths. */
  predicate Overlaps(target: string, root: string) {
    target == root || root + "/" <= target || target + "/" <= root
  }

  lemma {:induction false} StrictPrefixIsUnder(a: seq<string>, b: seq<string>)
    requires Plain(a) && Plain(b)
    ensures Join(a) + "/" <= Join(b) <==> a < b
  {
    if a < b {
      assert b == a + b[|a|..];
      JoinOfBoth(a, b[|a|..]);
    }
    if Join(a) + "/" <= Join(b) {
      var rest := Join(b)[|Join(a)| + 1..];
      assert Join(b) == Join(a) + "/" + rest;
      SplitOfBoth(Join(a), rest, Join(b));
      SplitOfJoin(a);
      SplitOfJoin(b);
      assert b == a + Split(rest);
    }
  }

  /** The string test agrees with segment-prefix containment, one way or the other. */
  lemma {:induction false} OverlapIsContainment(a: string, b: string)
    requires NamesALocation(a) && NamesALocation(b)
    ensures Overlaps(DecodedPath(a), DecodedPath(b)) <==> Within(a, b) || Within(b, a)
    ensures DecodedPath(a) + "/" <= DecodedPath(b) <==> Within(a, b) && DecodedPath(a) != DecodedPath(b)
  {
    LocationIsPlain(a);
    LocationIsPlain(b);
    StrictPrefixIsUnder(Segments(a).value, Segments(b).value);
    StrictPrefixIsUnder(Segments(b).value, Segments(a).value);
    DecodedPathIsInjective(a, b);
    PrefixOrEqual(Segments(a).value, Segments(b).value);
    PrefixOrEqual(Segments(b).value, Segments(a).value);
  }

  lemma {:induction false} PrefixOrEqual(a: seq<string>, b: seq<string>)
    ensures a <= b <==> a < b || a == b
    ensures a <= b && b <= a ==> a == b
  {
  }

  /** Containment is a partial order up to what the spellings decode to. */
  lemma {:induction false} WithinIsAPartialOrder(a: string, b: string, c: string)
    ensures NamesALocation(a) <==> Within(a, a)
    ensures Within(a, b) && Within(b, c) ==> Within(a, c)
    ensures Within(a, b) && Within(b, a) ==> DecodedPath(a) == DecodedPath(b)
  {
    if Within(a, b) && Within(b, a) {
      PrefixOrEqual(Segments(a).value, Segments(b).value);
    }
  }

  /** A decode that could leave the prefix a spelling shows is refused: no location beneath `outer` has a
      '.' or '..' segment after one decode. */
  lemma {:induction false} DotSegmentsNameNothing(uri: string, i: nat)
    requires i < |Split(Normalise(uri))| && Unquoted(Split(Normalise(uri))[i]) in {"", ".", ".."}
    ensures !NamesALocation(uri) && forall outer :: !Within(outer, uri)
  {
    NoneAnywhereIsNone(Split(Normalise(uri)), i);
  }

  // ---------------------------------------------------------------- the order sorted() puts paths in

  /** Code-point order; on UTF-8 octets it is the octets' own lexicographic order. */
  predicate AtMost(a: string, b: string) {
    a == "" || (b != "" && (a[0] < b[0] || (a[0] == b[0] && AtMost(a[1..], b[1..]))))
  }

  lemma {:induction false} AtMostIsTotal(a: string, b: string)
    ensures AtMost(a, b) || AtMost(b, a)
    ensures AtMost(a, b) && AtMost(b, a) ==> a == b
  {
    if a != "" && b != "" && a[0] == b[0] {
      AtMostIsTotal(a[1..], b[1..]);
      assert a == [a[0]] + a[1..] && b == [b[0]] + b[1..];
    }
  }

  lemma {:induction false} AtMostIsTransitive(a: string, b: string, c: string)
    requires AtMost(a, b) && AtMost(b, c)
    ensures AtMost(a, c)
  {
    if a != "" && a[0] == b[0] == c[0] {
      AtMostIsTransitive(a[1..], b[1..], c[1..]);
    }
  }

  lemma {:induction false} PrefixIsAtMost(a: string, b: string)
    requires a <= b
    ensures AtMost(a, b)
  {
    if a != "" {
      PrefixIsAtMost(a[1..], b[1..]);
    }
  }

  predicate IsLeast(m: string, s: set<string>) {
    m in s && forall x :: x in s ==> AtMost(m, x)
  }

  lemma {:induction false} LeastExists(s: set<string>)
    requires s != {}
    ensures exists m :: IsLeast(m, s)
  {
    var e :| e in s;
    AtMostIsTotal(e, e);
    var others := s - {e};
    if others == {} {
      assert s == {e};
      assert IsLeast(e, s);
    } else {
      LeastExists(others);
      var r :| IsLeast(r, others);
      AtMostIsTotal(e, r);
      var m := if AtMost(e, r) then e else r;
      forall x | x in s ensures AtMost(m, x) {
        if x != e {
          assert x in others;
          if m == e {
            AtMostIsTransitive(e, r, x);
          }
        }
      }
      assert IsLeast(m, s);
    }
  }

  function Least(s: set<string>): (m: string)
    requires s != {}
    ensures IsLeast(m, s)
  {
    LeastExists(s);
    assert forall m, n :: IsLeast(m, s) && IsLeast(n, s) ==> m == n by {
      forall m, n | IsLeast(m, s) && IsLeast(n, s) ensures m == n {
        AtMostIsTotal(m, n);
      }
    }
    var m :| m in s && IsLeast(m, s);
    m
  }

  /** `sorted` over a set of paths. */
  function Sorted(s: set<string>): (ordered: seq<string>)
    ensures forall x :: x in ordered <==> x in s
    ensures forall i, j :: 0 <= i < j < |ordered| ==> AtMost(ordered[i], ordered[j])
    decreases |s|
  {
    if s == {} then []
    else
      var least := Least(s);
      var rest := Sorted(s - {least});
      assert forall x :: x in s <==> x == least || x in s - {least};
      assert forall j :: 0 <= j < |rest| ==> rest[j] in s;
      [least] + rest
  }
}
