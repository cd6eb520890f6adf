/**
 Nudging overlapping cards apart (`frontend/packages/flow/src/resolve-collisions.ts`): every pass tests every
 pair of rendered boxes and pushes an overlapping pair apart along its smaller overlap, half each, until a
 pass moves nothing or the passes run out. Coordinates are reals; rounding is not modelled.
 */
module Collisions {
  import opened Outcomes

  /** What a node reports about itself: its position, the size it rendered at, the size its caller declared. */
  datatype Node = Node(
    x: real, y: real,
    measuredWidth: Option<real>, measuredHeight: Option<real>, width: Option<real>, height: Option<real>)

  datatype Box = Box(x: real, y: real, width: real, height: real, moved: bool)

  function Either(first: Option<real>, second: Option<real>, default: real): real {
    if first.Some? then first.value else if second.Some? then second.value else default
  }

  function BoxOf(n: Node, margin: real): Box {
    Box(n.x - margin, n.y - margin,
        Either(n.measuredWidth, n.width, 200.0) + margin * 2.0,
        Either(n.measuredHeight, n.height, 64.0) + margin * 2.0, false)
  }

  function NodeAt(n: Node, b: Box, margin: real): Node {
    if b.moved then n.(x := b.x + margin, y := b.y + margin) else n
  }

  /** A card's box: the size it rendered at, else the one its caller declared, else 200 by 64, grown by the margin on
      every side. */
  lemma {:induction false} BoxExactly(n: Node, margin: real)
    ensures var b := BoxOf(n, margin);
            && b.x == n.x - margin && b.y == n.y - margin && !b.moved
            && (n.measuredWidth.Some? ==> b.x + b.width == n.x + n.measuredWidth.value + margin)
            && (n.measuredWidth.None? && n.width.Some? ==> b.x + b.width == n.x + n.width.value + margin)
            && (n.measuredWidth.None? && n.width.None? ==> b.x + b.width == n.x + 200.0 + margin)
            && (n.measuredHeight.Some? ==> b.y + b.height == n.y + n.measuredHeight.value + margin)
            && (n.measuredHeight.None? && n.height.Some? ==> b.y + b.height == n.y + n.height.value + margin)
            && (n.measuredHeight.None? && n.height.None? ==> b.y + b.height == n.y + 64.0 + margin)
  {
  }

  // ---------------------------------------------------------------- one pair

  function Abs(r: real): real {
    if r < 0.0 then -r else r
  }

  function CentreX(b: Box): real { b.x + b.width * 0.5 }

  function CentreY(b: Box): real { b.y + b.height * 0.5 }

  /** How far two boxes reach into each other in x: half their summed widths less the distance of their centres. */
  function DepthX(a: Box, b: Box): real {
    (a.width + b.width) * 0.5 - Abs(CentreX(a) - CentreX(b))
  }

  function DepthY(a: Box, b: Box): real {
    (a.height + b.height) * 0.5 - Abs(CentreY(a) - CentreY(b))
  }

  /** How far two boxes reach past each other's near edges: the lesser of the two reaches, on either axis. */
  lemma {:induction false} DepthIsOfEdges(a: Box, b: Box)
    ensures DepthX(a, b) == var right, left := a.x + a.width - b.x, b.x + b.width - a.x; if right < left then right
            else left
    ensures DepthY(a, b) == var down, up := a.y + a.height - b.y, b.y + b.height - a.y; if down < up then down else up
  {
  }

  /** On some axis neither box reaches past the other's near edge by more than the threshold. */
  ghost predicate OutOfTouch(a: Box, b: Box, threshold: real) {
    || a.x + a.width - b.x <= threshold || b.x + b.width - a.x <= threshold
    || a.y + a.height - b.y <= threshold || b.y + b.height - a.y <= threshold
  }

  lemma {:induction false} CollideExactly(a: Box, b: Box, threshold: real)
    ensures Collide(a, b, threshold) <==> !OutOfTouch(a, b, threshold)
  {
    DepthIsOfEdges(a, b);
    hide DepthX, DepthY;
  }

  predicate Collide(a: Box, b: Box, threshold: real) {
    DepthX(a, b) > threshold && DepthY(a, b) > threshold
  }

  function Shift(depth: real, delta: real): real {
    depth / 2.0 * (if delta > 0.0 then 1.0 else -1.0)
  }

  /** Where an overlapping pair is pushed to. */
  function Separated(a: Box, b: Box): (Box, Box) {
    if DepthX(a, b) < DepthY(a, b) then
      var shift := Shift(DepthX(a, b), CentreX(a) - CentreX(b));
      (a.(x := a.x + shift, moved := true), b.(x := b.x - shift, moved := true))
    else
      var shift := Shift(DepthY(a, b), CentreY(a) - CentreY(b));
      (a.(y := a.y + shift, moved := true), b.(y := b.y - shift, moved := true))
  }

  /** Separating conserves the pair's sums of x and of y and changes no size; on the axis of the smaller overlap
      the pair ends exactly touching, neither apart nor overlapping, if and only if its boxes' extents there do
      not sum to less than nothing, which a threshold of 0 or more guarantees. */
  lemma {:induction false} SeparationIsExact(a: Box, b: Box, threshold: real)
    requires Collide(a, b, threshold)
    ensures var (a', b') := Separated(a, b);
            a'.moved && b'.moved
            && (DepthX(a, b) < DepthY(a, b) && a.width + b.width >= 0.0 ==>
                if a.x + a.width * 0.5 > b.x + b.width * 0.5 then a'.x == b'.x + b'.width else b'.x == a'.x + a'.width)
            && (!(DepthX(a, b) < DepthY(a, b)) && a.height + b.height >= 0.0 ==>
                if a.y + a.height * 0.5 > b.y + b.height * 0.5 then a'.y == b'.y + b'.height
                   else b'.y == a'.y + a'.height)
    ensures var (a', b') := Separated(a, b);
            && a'.x + b'.x == a.x + b.x && a'.y + b'.y == a.y + b.y
            && (a'.width, a'.height, b'.width, b'.height) == (a.width, a.height, b.width, b.height)
            && if DepthX(a, b) < DepthY(a, b)
               then (DepthX(a', b') == 0.0 <==> a.width + b.width >= 0.0) && (a'.y, b'.y) == (a.y, b.y)
               else (DepthY(a', b') == 0.0 <==> a.height + b.height >= 0.0) && (a'.x, b'.x) == (a.x, b.x)
    ensures threshold >= 0.0 ==> a.width + b.width > 0.0 && a.height + b.height > 0.0
  {
    AxisIsExact(a.width + b.width, CentreX(a) - CentreX(b));
    AxisIsExact(a.height + b.height, CentreY(a) - CentreY(b));
  }

  /** The exception: two cards at one point whose margin eats up more than their width still collide under a
      threshold below zero, and separating them leaves them a further unit out of touch. */
  lemma {:induction false} NegativeExtentsMissEachOther()
    ensures var box := BoxOf(Node(0.0, 0.0, None, None, None, Some(211.0)), -100.5);
            var (a, b) := Separated(box, box);
            && (box.width, box.height) == (-1.0, 10.0) && Collide(box, box, -5.0)
            && DepthX(box, box) == -1.0 && DepthX(a, b) == -2.0
  {
    hide Separated, DepthX, DepthY;
    var box := BoxOf(Node(0.0, 0.0, None, None, None, Some(211.0)), -100.5);
    assert box == Box(100.5, 100.5, -1.0, 10.0, false);
    SeparatedInX(box);
  }

  lemma {:induction false} SeparatedInX(box: Box)
    requires box.width < box.height
    ensures DepthX(box, box) == box.width && DepthY(box, box) == box.height
    ensures var (a, b) := Separated(box, box); DepthX(a, b) == box.width - Abs(box.width)
  {
  }

  lemma {:induction false} AxisIsExact(extents: real, delta: real)
    ensures var depth := extents * 0.5 - Abs(delta);
            extents * 0.5 - Abs(delta + 2.0 * Shift(depth, delta)) == 0.0 <==> extents >= 0.0
  {
  }

  // ---------------------------------------------------------------- sums over all boxes

  function Total(s: seq<Box>, part: Box -> real): real {
    if s == [] then 0.0 else part(s[0]) + Total(s[1..], part)
  }

  lemma {:induction false} TotalOfUpdate(s: seq<Box>, i: nat, b: Box, part: Box -> real)
    requires i < |s|
    ensures Total(s[i := b], part) == Total(s, part) - part(s[i]) + part(b)
  {
    if i == 0 {
      assert s[i := b][1..] == s[1..];
    } else {
      assert s[i := b][1..] == s[1..][i - 1 := b];
      TotalOfUpdate(s[1..], i - 1, b, part);
    }
  }

  function XOf(): Box -> real { (b: Box) => b.x }

  function YOf(): Box -> real { (b: Box) => b.y }

  ghost predicate SameSums(s: seq<Box>, t: seq<Box>) {
    Total(s, XOf()) == Total(t, XOf()) && Total(s, YOf()) == Total(t, YOf())
  }

  /** Box for box: the sizes of `from`, and the position too unless it moved. */
  ghost predicate MovedFrom(s: seq<Box>, from: seq<Box>) {
    |s| == |from| && forall k :: 0 <= k < |s| ==>
      && s[k].width == from[k].width && s[k].height == from[k].height
      && (!s[k].moved ==> s[k].x == from[k].x && s[k].y == from[k].y)
  }

  lemma {:induction false} SeparatingKeepsSums(s: seq<Box>, i: nat, j: nat)
    requires i < j < |s|
    ensures var (a, b) := Separated(s[i], s[j]);
            SameSums(s[i := a][j := b], s)
  {
    var (a, b) := Separated(s[i], s[j]);
    TotalOfUpdate(s, i, a, XOf());
    TotalOfUpdate(s[i := a], j, b, XOf());
    TotalOfUpdate(s, i, a, YOf());
    TotalOfUpdate(s[i := a], j, b, YOf());
  }

  // ---------------------------------------------------------------- what a pass does

  /** No pair overlaps beyond the threshold on both axes. */
  ghost predicate Clear(s: seq<Box>, threshold: real) {
    forall p, q :: 0 <= p < q < |s| ==> !Collide(s[p], s[q], threshold)
  }

  function PairOf(s: seq<Box>, i: nat, j: nat, threshold: real): (after: seq<Box>)
    requires i < j < |s|
    ensures |after| == |s|
  {
    if Collide(s[i], s[j], threshold) then
      var (a, b) := Separated(s[i], s[j]);
      s[i := a][j := b]
    else s
  }

  /** Box `i` tried against each box from the next one up to, but not with, `j`. */
  function RowOf(s: seq<Box>, i: nat, j: nat, threshold: real): (after: seq<Box>)
    requires i < j <= |s|
    ensures |after| == |s|
    decreases j
  {
    if j == i + 1 then s else PairOf(RowOf(s, i, j - 1, threshold), i, j - 1, threshold)
  }

  /** The rows of the first `i` boxes, one after the other, each meeting what those before it left. */
  function RowsOf(s: seq<Box>, i: nat, threshold: real): (after: seq<Box>)
    requires i <= |s|
    ensures |after| == |s|
    decreases i
  {
    if i == 0 then s else RowOf(RowsOf(s, i - 1, threshold), i - 1, |s|, threshold)
  }

  function PassOf(s: seq<Box>, threshold: real): (after: seq<Box>)
    ensures |after| == |s|
  {
    RowsOf(s, |s|, threshold)
  }

  function PassesOf(s: seq<Box>, n: nat, threshold: real): (after: seq<Box>)
    ensures |after| == |s|
  {
    if n == 0 then s else PassOf(PassesOf(s, n - 1, threshold), threshold)
  }

  /** The boxes as a pass over `s` finds them when it comes to pair (i, j). */
  function Met(s: seq<Box>, i: nat, j: nat, threshold: real): (met: seq<Box>)
    requires i < j < |s|
    ensures |met| == |s|
  {
    RowOf(RowsOf(s, i, threshold), i, j, threshold)
  }

  /** A pass over `s` adjusts pair (i, j). */
  predicate Hits(s: seq<Box>, i: nat, j: nat, threshold: real) {
    i < j < |s| && Collide(Met(s, i, j, threshold)[i], Met(s, i, j, threshold)[j], threshold)
  }

  /** A pass over `s` adjusts box `k`, with some partner. */
  ghost predicate Adjusts(s: seq<Box>, k: nat, threshold: real) {
    exists i: nat, j: nat :: Hits(s, i, j, threshold) && (k == i || k == j)
  }

  /** One of the first `n` passes adjusts box `k`. */
  ghost predicate AdjustedWithin(s: seq<Box>, n: nat, k: nat, threshold: real) {
    exists p: nat :: p < n && Adjusts(PassesOf(s, p, threshold), k, threshold)
  }

  // ---------------------------------------------------------------- what every pass keeps

  lemma {:induction false} PairKeeps(s: seq<Box>, i: nat, j: nat, threshold: real, from: seq<Box>)
    requires i < j < |s| && MovedFrom(s, from) && SameSums(s, from)
    ensures MovedFrom(PairOf(s, i, j, threshold), from) && SameSums(PairOf(s, i, j, threshold), from)
  {
    hide SameSums;
    if Collide(s[i], s[j], threshold) {
      SeparatingKeepsSums(s, i, j);
      SameSumsAreTransitive(PairOf(s, i, j, threshold), s, from);
    }
  }

  lemma {:induction false} RowKeeps(s: seq<Box>, i: nat, j: nat, threshold: real, from: seq<Box>)
    requires i < j <= |s| && MovedFrom(s, from) && SameSums(s, from)
    ensures MovedFrom(RowOf(s, i, j, threshold), from) && SameSums(RowOf(s, i, j, threshold), from)
    decreases j
  {
    hide MovedFrom, SameSums, PairOf;
    if j > i + 1 {
      RowKeeps(s, i, j - 1, threshold, from);
      PairKeeps(RowOf(s, i, j - 1, threshold), i, j - 1, threshold, from);
    }
  }

  lemma {:induction false} RowsKeep(s: seq<Box>, i: nat, threshold: real, from: seq<Box>)
    requires i <= |s| && MovedFrom(s, from) && SameSums(s, from)
    ensures MovedFrom(RowsOf(s, i, threshold), from) && SameSums(RowsOf(s, i, threshold), from)
    decreases i
  {
    hide MovedFrom, SameSums, RowOf;
    if i > 0 {
      RowsKeep(s, i - 1, threshold, from);
      RowKeeps(RowsOf(s, i - 1, threshold), i - 1, |s|, threshold, from);
    }
  }

  /** However many passes: the sums of x and of y are those of the start, every size is, and so is the place of
      every box never moved. */
  lemma {:induction false} PassesKeep(s: seq<Box>, n: nat, threshold: real)
    ensures MovedFrom(PassesOf(s, n, threshold), s) && SameSums(PassesOf(s, n, threshold), s)
  {
    if n > 0 {
      PassesKeep(s, n - 1, threshold);
      RowsKeep(PassesOf(s, n - 1, threshold), |s|, threshold, s);
    }
  }

  lemma {:induction false} SameSumsAreTransitive(a: seq<Box>, b: seq<Box>, c: seq<Box>)
    requires SameSums(a, b) && SameSums(b, c)
    ensures SameSums(a, c)
  {
  }

  // ---------------------------------------------------------------- when a pass does nothing

  lemma {:induction false} ClearRowStays(s: seq<Box>, i: nat, j: nat, threshold: real)
    requires i < j <= |s| && Clear(s, threshold)
    ensures RowOf(s, i, j, threshold) == s
    decreases j
  {
    hide Collide;
    if j > i + 1 {
      ClearRowStays(s, i, j - 1, threshold);
    }
  }

  lemma {:induction false} ClearRowsStay(s: seq<Box>, i: nat, threshold: real)
    requires i <= |s| && Clear(s, threshold)
    ensures RowsOf(s, i, threshold) == s
    decreases i
  {
    hide Clear;
    if i > 0 {
      ClearRowsStay(s, i - 1, threshold);
      ClearRowStays(s, i - 1, |s|, threshold);
    }
  }

  /** Clear boxes are a fixed point: no pair is hit, and no further pass changes anything. */
  lemma {:induction false} ClearPassesStay(s: seq<Box>, n: nat, threshold: real)
    requires Clear(s, threshold)
    ensures PassesOf(s, n, threshold) == s
    ensures forall k: nat :: !Adjusts(s, k, threshold)
  {
    hide Collide;
    if n > 0 {
      ClearPassesStay(s, n - 1, threshold);
      ClearRowsStay(s, |s|, threshold);
    }
    forall i: nat, j: nat | i < j < |s| ensures !Hits(s, i, j, threshold) {
      ClearRowsStay(s, i, threshold);
      ClearRowStays(s, i, j, threshold);
    }
  }

  // ---------------------------------------------------------------- which boxes move

  /** In a row, box `k` comes out moved exactly when it went in moved or one of the row's pairs with it is hit. */
  lemma {:induction false} MovedInRow(s: seq<Box>, i: nat, j: nat, threshold: real, k: nat)
    requires i < j <= |s| && k < |s|
    ensures RowOf(s, i, j, threshold)[k].moved
            <==> s[k].moved || exists q: nat :: i < q < j && (k == i || k == q) && HitsInRow(s, i, q, threshold)
    decreases j
  {
    hide Collide;
    if j > i + 1 {
      MovedInRow(s, i, j - 1, threshold, k);
      var met := RowOf(s, i, j - 1, threshold);
      assert PairOf(met, i, j - 1, threshold)[k].moved
             <==> met[k].moved || ((k == i || k == j - 1) && HitsInRow(s, i, j - 1, threshold));
    }
  }

  predicate HitsInRow(s: seq<Box>, i: nat, q: nat, threshold: real) {
    i < q < |s| && Collide(RowOf(s, i, q, threshold)[i], RowOf(s, i, q, threshold)[q], threshold)
  }

  ghost predicate AdjustsBefore(s: seq<Box>, rows: nat, k: nat, threshold: real) {
    exists i: nat, j: nat :: i < rows && Hits(s, i, j, threshold) && (k == i || k == j)
  }

  lemma {:induction false} MovedInRows(s: seq<Box>, rows: nat, threshold: real, k: nat)
    requires rows <= |s| && k < |s|
    ensures RowsOf(s, rows, threshold)[k].moved <==> s[k].moved || AdjustsBefore(s, rows, k, threshold)
    decreases rows
  {
    hide Collide, RowOf;
    if rows > 0 {
      var i := rows - 1;
      var before := RowsOf(s, i, threshold);
      MovedInRows(s, i, threshold, k);
      MovedInRow(before, i, |s|, threshold, k);
      forall q: nat ensures HitsInRow(before, i, q, threshold) <==> Hits(s, i, q, threshold) {
      }
      if q: nat :| i < q < |s| && (k == i || k == q) && HitsInRow(before, i, q, threshold) {
        assert Hits(s, i, q, threshold);
        assert AdjustsBefore(s, rows, k, threshold);
      }
      if AdjustsBefore(s, rows, k, threshold) && !AdjustsBefore(s, i, k, threshold) {
        var p: nat, q: nat :| p < rows && Hits(s, p, q, threshold) && (k == p || k == q);
        assert p == i;
        assert HitsInRow(before, i, q, threshold);
      }
    }
  }

  /** A box ends up moved exactly when it started so or some pass adjusted it. */
  lemma {:induction false} MovedExactly(s: seq<Box>, n: nat, threshold: real, k: nat)
    requires k < |s|
    ensures PassesOf(s, n, threshold)[k].moved
            <==> s[k].moved || AdjustedWithin(s, n, k, threshold)
  {
    if n > 0 {
      hide Hits, RowsOf;
      MovedExactly(s, n - 1, threshold, k);
      var last := PassesOf(s, n - 1, threshold);
      MovedInRows(last, |s|, threshold, k);
      assert AdjustsBefore(last, |s|, k, threshold) <==> Adjusts(last, k, threshold) by {
        AllRows(last, k, threshold);
      }
    }
  }

  lemma {:induction false} AllRows(s: seq<Box>, k: nat, threshold: real)
    ensures AdjustsBefore(s, |s|, k, threshold) <==> Adjusts(s, k, threshold)
  {
    hide Collide, Met;
    if i: nat, j: nat :| Hits(s, i, j, threshold) && (k == i || k == j) {
      assert i < |s|;
    }
  }

  /** A pass over boxes that are not clear hits some pair: at the latest the first that collided before it. */
  lemma {:induction false} FirstCollisionIsHit(s: seq<Box>, i: nat, j: nat, threshold: real)
    requires i < j < |s| && Collide(s[i], s[j], threshold)
    requires forall p, q :: 0 <= p < q < |s| && Before(p, q, i, j) ==> !Collide(s[p], s[q], threshold)
    ensures Hits(s, i, j, threshold)
  {
    hide Collide;
    RowsUntouched(s, i, i, j, threshold);
    RowUntouched(s, i, j, j, threshold);
  }

  /** Whether pair (p, q) comes before pair (i, j) in a pass. */
  predicate Before(p: int, q: int, i: int, j: int) {
    p < i || (p == i && q < j)
  }

  lemma {:induction false} RowUntouched(s: seq<Box>, i: nat, upTo: nat, j: nat, threshold: real)
    requires i < upTo <= j <= |s|
    requires forall q :: i < q < j ==> !Collide(s[i], s[q], threshold)
    ensures RowOf(s, i, upTo, threshold) == s
    decreases upTo
  {
    hide Collide;
    if upTo > i + 1 {
      RowUntouched(s, i, upTo - 1, j, threshold);
    }
  }

  lemma {:induction false} RowsUntouched(s: seq<Box>, rows: nat, i: nat, j: nat, threshold: real)
    requires rows <= i < |s|
    requires forall p, q :: 0 <= p < q < |s| && Before(p, q, i, j) ==> !Collide(s[p], s[q], threshold)
    ensures RowsOf(s, rows, threshold) == s
    decreases rows
  {
    hide Collide;
    if rows > 0 {
      RowsUntouched(s, rows - 1, i, j, threshold);
      RowUntouched(s, rows - 1, |s|, |s|, threshold);
    }
  }

  // ---------------------------------------------------------------- the passes, in place

  method Pair(boxes: array<Box>, i: nat, j: nat, threshold: real) returns (hit: bool)
    requires i < j < boxes.Length
    modifies boxes
    ensures hit == Collide(old(boxes[i]), old(boxes[j]), threshold)
    ensures boxes[..] == PairOf(old(boxes[..]), i, j, threshold)
  {
    var a, b := boxes[i], boxes[j];
    hit := Collide(a, b, threshold);
    if hit {
      var (a', b') := Separated(a, b);
      boxes[i] := a';
      boxes[j] := b';
    }
  }

  /** One pass over every pair, in place; it says it moved something exactly when some pair collided before it. */
  method Pass(boxes: array<Box>, threshold: real) returns (moved: bool)
    modifies boxes
    ensures boxes[..] == PassOf(old(boxes[..]), threshold)
    ensures moved <==> !Clear(old(boxes[..]), threshold)
  {
    hide Collide, PairOf;
    moved := false;
    ghost var from := boxes[..];
    var i := 0;
    while i < boxes.Length
      invariant 0 <= i <= boxes.Length
      invariant boxes[..] == RowsOf(from, i, threshold)
      invariant moved ==> !Clear(from, threshold)
      invariant !moved ==> boxes[..] == from && ClearBefore(from, threshold, i, i + 1)
    {
      var j := i + 1;
      while j < boxes.Length
        invariant i + 1 <= j <= boxes.Length
        invariant boxes[..] == RowOf(RowsOf(from, i, threshold), i, j, threshold)
        invariant moved ==> !Clear(from, threshold)
        invariant !moved ==> boxes[..] == from && ClearBefore(from, threshold, i, j)
      {
        ghost var was := boxes[..];
        var hit := Pair(boxes, i, j, threshold);
        if hit && !moved {
          assert Collide(from[i], from[j], threshold);
        }
        if !hit {
          MissChangesNothing(was, i, j, threshold);
        }
        moved := moved || hit;
        j := j + 1;
      }
      i := i + 1;
    }
  }

  ghost predicate ClearBefore(s: seq<Box>, threshold: real, i: int, j: int) {
    forall p, q :: 0 <= p < q < |s| && Before(p, q, i, j) ==> !Collide(s[p], s[q], threshold)
  }

  lemma {:induction false} MissChangesNothing(s: seq<Box>, i: nat, j: nat, threshold: real)
    requires i < j < |s| && !Collide(s[i], s[j], threshold)
    ensures PairOf(s, i, j, threshold) == s
  {
  }

  // ---------------------------------------------------------------- the whole resolution

  function BoxesOf(nodes: seq<Node>, margin: real): seq<Box> {
    seq(|nodes|, i requires 0 <= i < |nodes| => BoxOf(nodes[i], margin))
  }

  function SumX(nodes: seq<Node>): real {
    if nodes == [] then 0.0 else nodes[0].x + SumX(nodes[1..])
  }

  function SumY(nodes: seq<Node>): real {
    if nodes == [] then 0.0 else nodes[0].y + SumY(nodes[1..])
  }

  lemma {:induction false} SumsOfBoxes(nodes: seq<Node>, margin: real)
    ensures Total(BoxesOf(nodes, margin), XOf()) == SumX(nodes) - margin * |nodes| as real
    ensures Total(BoxesOf(nodes, margin), YOf()) == SumY(nodes) - margin * |nodes| as real
  {
    if nodes != [] {
      assert BoxesOf(nodes, margin)[1..] == BoxesOf(nodes[1..], margin);
      SumsOfBoxes(nodes[1..], margin);
    }
  }

  lemma {:induction false} SameBoxesSameSums(s: seq<Box>, t: seq<Box>)
    requires |s| == |t| && forall k :: 0 <= k < |s| ==> s[k].x == t[k].x && s[k].y == t[k].y
    ensures SameSums(s, t)
  {
    if s != [] {
      SameBoxesSameSums(s[1..], t[1..]);
    }
  }

  function NodesAt(nodes: seq<Node>, boxes: seq<Box>, margin: real): seq<Node>
    requires |boxes| == |nodes|
  {
    seq(|nodes|, i requires 0 <= i < |nodes| => NodeAt(nodes[i], boxes[i], margin))
  }

  /** The passes a call may make. */
  function Allowed(maxIterations: int): nat {
    if maxIterations < 0 then 0 else maxIterations + 1
  }

  /** `resolveCollisions`: the nodes after `passes` passes over their boxes. It settles exactly when one of the
      passes it is allowed finds the boxes clear, and then stops after the first that does; otherwise it makes
      all of them. `moved` are the nodes some pass adjusted, none exactly when no pass was made or the boxes were
      clear from the start. The sums of x and of y are conserved, nothing but positions changes, and a node not
      moved is handed back as it was. */
  method ResolveCollisions(nodes: seq<Node>, maxIterations: int, threshold: real, margin: real)
    returns (result: seq<Node>, settled: bool, moved: set<nat>, passes: nat)
    ensures result == NodesAt(nodes, PassesOf(BoxesOf(nodes, margin), passes, threshold), margin)
    ensures settled
            <==> exists p: nat ::
                   p < Allowed(maxIterations) && Clear(PassesOf(BoxesOf(nodes, margin), p, threshold), threshold)
    ensures !settled ==> passes == Allowed(maxIterations)
    ensures settled ==> 1 <= passes <= Allowed(maxIterations)
    ensures settled ==> Clear(PassesOf(BoxesOf(nodes, margin), passes - 1, threshold), threshold)
    ensures forall p: nat :: p < passes - 1 ==> !Clear(PassesOf(BoxesOf(nodes, margin), p, threshold), threshold)
    ensures |result| == |nodes| && SumX(result) == SumX(nodes) && SumY(result) == SumY(nodes)
    ensures forall k: nat :: k < |nodes| ==> result[k] == nodes[k].(x := result[k].x, y := result[k].y)
    ensures forall k: nat :: k < |nodes| && k !in moved ==> result[k] == nodes[k]
    ensures settled ==> Clear(BoxesOf(result, margin), threshold)
    ensures settled ==> forall p, q :: 0 <= p < q < |result| ==>
                          OutOfTouch(BoxOf(result[p], margin), BoxOf(result[q], margin), threshold)
    ensures moved == {} <==> passes == 0 || Clear(BoxesOf(nodes, margin), threshold)
    ensures forall k: nat :: k in moved <==> k < |nodes| && AdjustedWithin(BoxesOf(nodes, margin), passes, k, threshold)
  {
    hide Collide, BoxOf, PassOf, AdjustedWithin, Clear;
    ghost var from := BoxesOf(nodes, margin);
    var boxes := new Box[|nodes|](i requires 0 <= i < |nodes| => BoxOf(nodes[i], margin));
    assert boxes[..] == from;
    settled, passes := false, 0;
    var iter := 0;
    while iter <= maxIterations && !settled
      invariant 0 <= iter <= Allowed(maxIterations) && passes == iter + (if settled then 1 else 0)
      invariant settled ==> passes <= Allowed(maxIterations)
      invariant boxes[..] == PassesOf(from, passes, threshold)
      invariant settled ==> Clear(PassesOf(from, passes - 1, threshold), threshold)
      invariant forall p: nat :: p < iter ==> !Clear(PassesOf(from, p, threshold), threshold)
      decreases maxIterations - iter, !settled
    {
      var any := Pass(boxes, threshold);
      passes := passes + 1;
      if !any {
        settled := true;
      } else {
        iter := iter + 1;
      }
    }
    ghost var ended := PassesOf(from, passes, threshold);
    assert forall k :: 0 <= k < |nodes| ==> boxes[k] == ended[k];
    result := seq(|nodes|, i requires 0 <= i < |nodes| reads boxes => NodeAt(nodes[i], boxes[i], margin));
    moved := set k: nat | k < |nodes| && boxes[k].moved;
    BoxesStartUnmoved(nodes, margin);
    forall k: nat | k < |nodes|
      ensures ended[k].moved <==> AdjustedWithin(from, passes, k, threshold)
    {
      MovedExactly(from, passes, threshold, k);
    }
    assert result == NodesAt(nodes, ended, margin);
    ResolvingKeeps(nodes, passes, threshold, margin);
    SomethingMovesExactlyWhen(nodes, passes, threshold, margin);
    if k: nat :| k < |nodes| && AdjustedWithin(from, passes, k, threshold) {
      assert k in moved;
    }
    if settled {
      ClearPassesStay(PassesOf(from, passes - 1, threshold), 1, threshold);
      OnePassMore(from, passes, threshold);
      ClearIsOutOfTouch(result, margin, threshold);
    }
  }

  lemma {:induction false} ClearIsOutOfTouch(nodes: seq<Node>, margin: real, threshold: real)
    requires Clear(BoxesOf(nodes, margin), threshold)
    ensures forall p, q :: 0 <= p < q < |nodes| ==>
            OutOfTouch(BoxOf(nodes[p], margin), BoxOf(nodes[q], margin), threshold)
  {
    hide Collide, BoxOf, OutOfTouch;
    forall p, q | 0 <= p < q < |nodes| ensures OutOfTouch(BoxOf(nodes[p], margin), BoxOf(nodes[q], margin), threshold) {
      assert !Collide(BoxesOf(nodes, margin)[p], BoxesOf(nodes, margin)[q], threshold);
      CollideExactly(BoxOf(nodes[p], margin), BoxOf(nodes[q], margin), threshold);
    }
  }

  lemma {:induction false} OnePassMore(s: seq<Box>, n: nat, threshold: real)
    requires n > 0
    ensures PassesOf(s, n, threshold) == PassesOf(PassesOf(s, n - 1, threshold), 1, threshold)
  {
    assert PassesOf(PassesOf(s, n - 1, threshold), 0, threshold) == PassesOf(s, n - 1, threshold);
  }

  lemma {:induction false} BoxesStartUnmoved(nodes: seq<Node>, margin: real)
    ensures forall k :: 0 <= k < |nodes| ==> !BoxesOf(nodes, margin)[k].moved
    ensures SameSums(BoxesOf(nodes, margin), BoxesOf(nodes, margin))
  {
  }

  /** What every resolution keeps, however many passes it made: the sums of x and of y over all nodes, every size,
      and every node no pass adjusted; and if the boxes it ended with are clear, so are those of its result. */
  lemma {:induction false} ResolvingKeeps(nodes: seq<Node>, n: nat, threshold: real, margin: real)
    ensures var ended := PassesOf(BoxesOf(nodes, margin), n, threshold);
            var result := NodesAt(nodes, ended, margin);
            && SumX(result) == SumX(nodes) && SumY(result) == SumY(nodes)
            && (forall k :: 0 <= k < |nodes| ==> result[k] == nodes[k].(x := result[k].x, y := result[k].y))
            && (forall k: nat :: k < |nodes| && result[k] != nodes[k] ==>
                  AdjustedWithin(BoxesOf(nodes, margin), n, k, threshold))
            && (Clear(ended, threshold) <==> Clear(BoxesOf(result, margin), threshold))
  {
    hide PassesOf, AdjustedWithin;
    var from := BoxesOf(nodes, margin);
    var ended := PassesOf(from, n, threshold);
    var result := NodesAt(nodes, ended, margin);
    BoxesStartUnmoved(nodes, margin);
    PassesKeep(from, n, threshold);
    forall k: nat | k < |nodes| && result[k] != nodes[k]
      ensures AdjustedWithin(from, n, k, threshold)
    {
      MovedExactly(from, n, threshold, k);
    }
    BoxesOfResult(nodes, ended, margin);
    SameSumsOfResult(nodes, ended, margin);
    SameBoxesClear(ended, BoxesOf(result, margin), threshold);
  }

  /** The nodes handed back sit where the boxes ended. */
  lemma {:induction false} BoxesOfResult(nodes: seq<Node>, boxes: seq<Box>, margin: real)
    requires MovedFrom(boxes, BoxesOf(nodes, margin))
    ensures forall k :: 0 <= k < |nodes| ==>
            BoxesOf(NodesAt(nodes, boxes, margin), margin)[k] == boxes[k].(moved := false)
  {
  }

  lemma {:induction false} SameSumsOfResult(nodes: seq<Node>, boxes: seq<Box>, margin: real)
    requires MovedFrom(boxes, BoxesOf(nodes, margin)) && SameSums(boxes, BoxesOf(nodes, margin))
    ensures SumX(NodesAt(nodes, boxes, margin)) == SumX(nodes) && SumY(NodesAt(nodes, boxes, margin)) == SumY(nodes)
  {
    var result := NodesAt(nodes, boxes, margin);
    BoxesOfResult(nodes, boxes, margin);
    SameBoxesSameSums(BoxesOf(result, margin), boxes);
    SumsOfBoxes(nodes, margin);
    SumsOfBoxes(result, margin);
  }

  lemma {:induction false} SameBoxesClear(s: seq<Box>, t: seq<Box>, threshold: real)
    requires |s| == |t| && forall k :: 0 <= k < |s| ==> t[k] == s[k].(moved := false)
    ensures Clear(s, threshold) <==> Clear(t, threshold)
  {
    assert forall p, q :: 0 <= p < q < |s| ==> (Collide(s[p], s[q], threshold) <==> Collide(t[p], t[q], threshold));
  }

  /** Something moves exactly when a pass is made and the boxes were not clear to begin with. */
  lemma {:induction false} SomethingMovesExactlyWhen(nodes: seq<Node>, n: nat, threshold: real, margin: real)
    ensures (exists k: nat :: k < |nodes| && AdjustedWithin(BoxesOf(nodes, margin), n, k, threshold))
            <==> n > 0 && !Clear(BoxesOf(nodes, margin), threshold)
  {
    hide Collide, PassOf;
    var from := BoxesOf(nodes, margin);
    if Clear(from, threshold) {
      forall p: nat ensures PassesOf(from, p, threshold) == from {
        ClearPassesStay(from, p, threshold);
      }
      ClearPassesStay(from, 0, threshold);
    } else if n > 0 {
      var i, j := FirstCollision(from, threshold);
      FirstCollisionIsHit(from, i, j, threshold);
      assert PassesOf(from, 0, threshold) == from;
      assert Adjusts(PassesOf(from, 0, threshold), i, threshold);
      assert AdjustedWithin(from, n, i, threshold);
    }
  }

  lemma {:induction false} FirstCollision(s: seq<Box>, threshold: real) returns (i: nat, j: nat)
    requires !Clear(s, threshold)
    ensures i < j < |s| && Collide(s[i], s[j], threshold)
    ensures forall p, q :: 0 <= p < q < |s| && Before(p, q, i, j) ==> !Collide(s[p], s[q], threshold)
  {
    hide Collide;
    i, j := 0, 1;
    while i < |s|
      invariant 0 <= i <= |s| && i < j && (i < |s| ==> j <= |s|)
      invariant forall p, q :: 0 <= p < q < |s| && Before(p, q, i, j) ==> !Collide(s[p], s[q], threshold)
      decreases |s| - i, |s| - j
    {
      if j >= |s| {
        i, j := i + 1, i + 2;
      } else if Collide(s[i], s[j], threshold) {
        return;
      } else {
        j := j + 1;
      }
    }
    assert false;
  }

  /** Two overlapping boxes are clear after one pass, whatever their sizes, at every threshold from 0 up. */
  lemma {:induction false} TwoBoxesSettleInOnePass(s: seq<Box>, threshold: real)
    requires |s| == 2 && threshold >= 0.0
    ensures Clear(PassOf(s, threshold), threshold)
  {
    var after := PassOf(s, threshold);
    assert RowsOf(s, 1, threshold) == RowOf(s, 0, 2, threshold);
    assert RowOf(s, 0, 1, threshold) == s;
    assert RowsOf(s, 2, threshold) == RowsOf(s, 1, threshold);
    assert after == PairOf(s, 0, 1, threshold);
    if Collide(s[0], s[1], threshold) {
      SeparationIsExact(s[0], s[1], threshold);
    }
    assert !Collide(after[0], after[1], threshold);
  }
}
