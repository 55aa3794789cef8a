/** The shelf packer that lays the images out on one A4 sheet: images go left
    to right along a row from a cursor (x, y); an image that would cross the
    right margin starts a new row below the tallest image of the current one;
    the first image that would cross the bottom margin ends the layout. */
module Shelf {
  import opened Images
  import opened Sorting

  /** The rectangle given to the index-th image of the (sorted) list. */
  datatype Placement = Placement(index: nat, x: int, y: int, w: int, h: int)

  /** Where the next image goes, and how tall the current row is so far. */
  datatype Cursor = Cursor(x: int, y: int, rowHeight: int)

  /** AllPlaced: every image is on the sheet. SheetFull: the layout stopped at
      an image that would cross the bottom margin (the error shown to the
      user). ResizeRejected: a wide image's height truncated to 0 pixels,
      which the imaging library refuses. */
  datatype Outcome = AllPlaced | SheetFull | ResizeRejected

  datatype Sheet = Sheet(placements: seq<Placement>, outcome: Outcome)

  function Max(a: int, b: int): int {
    if a < b then b else a
  }

  /** The cursor before the first image: the top-left corner inside the margins. */
  function Start(margin: int): Cursor {
    Cursor(margin, margin, 0)
  }

  /** The wrap rule: if an image of width w would cross the right margin, the
      cursor moves to the left margin of a new row, spacing below the tallest
      image of the current row. */
  function WrapIfNeeded(c: Cursor, w: int, margin: int, spacing: int): (r: Cursor)
    ensures r == c || (r.x == margin && r.rowHeight == 0)
    ensures c.rowHeight + spacing >= 0 ==> r.y >= c.y
    ensures margin <= c.x && 0 < w <= UsableWidth(margin) ==>
      margin <= r.x && r.x + w <= A4_WIDTH - margin
  {
    if c.x + w > A4_WIDTH - margin then Cursor(margin, c.y + c.rowHeight + spacing, 0)
    else c
  }

  /** The tallest image placed in row y so far, 0 if there is none. */
  function RowHeight(ps: seq<Placement>, y: int): int {
    if ps == [] then 0
    else Max(RowHeight(ps[..|ps| - 1], y), if ps[|ps| - 1].y == y then ps[|ps| - 1].h else 0)
  }

  /** The cursor as the placements left it: spacing right of the last image,
      in its row, with that row's height. */
  function CursorAfter(ps: seq<Placement>, margin: int, spacing: int): Cursor {
    if ps == [] then Start(margin)
    else
      var p := ps[|ps| - 1];
      Cursor(p.x + p.w + spacing, p.y, RowHeight(ps, p.y))
  }

  /** The k-th placement is the k-th image, at its fitted size, at the cursor
      the earlier placements leave after the wrap rule, above the bottom margin. */
  predicate PlacedAt(images: seq<Image>, ps: seq<Placement>, k: int, margin: int, spacing: int)
    requires AllPositive(images) && ValidMargin(margin)
    requires 0 <= k < |ps| && k < |images|
  {
    var p := ps[k];
    var c := WrapIfNeeded(CursorAfter(ps[..k], margin, spacing), p.w, margin, spacing);
    && p.index == k
    && Fitted(images[k], margin) == Some(Image(p.w, p.h))
    && p.x == c.x && p.y == c.y
    && p.y + p.h <= A4_HEIGHT - margin
  }

  /** The placements are the first images of the list, each where the shelf
      rule puts it. */
  predicate PlacedGreedily(images: seq<Image>, ps: seq<Placement>, margin: int, spacing: int)
    requires AllPositive(images) && ValidMargin(margin)
  {
    |ps| <= |images| && forall k :: 0 <= k < |ps| ==> PlacedAt(images, ps, k, margin, spacing)
  }

  /** The layout ends for the reason its outcome gives, at the first image
      not placed. */
  predicate StopsRightly(images: seq<Image>, sheet: Sheet, margin: int, spacing: int)
    requires AllPositive(images) && ValidMargin(margin)
  {
    var n := |sheet.placements|;
    match sheet.outcome
    case AllPlaced => n == |images|
    case ResizeRejected => n < |images| && Fitted(images[n], margin).None?
    case SheetFull =>
      && n < |images|
      && Fitted(images[n], margin).Some?
      && var f := Fitted(images[n], margin).value;
         WrapIfNeeded(CursorAfter(sheet.placements, margin, spacing), f.w, margin, spacing).y + f.h
           > A4_HEIGHT - margin
  }

  /** The sheet the shelf packer produces for the images, in their order. */
  predicate IsShelfLayout(images: seq<Image>, sheet: Sheet, margin: int, spacing: int)
    requires AllPositive(images) && ValidMargin(margin)
  {
    PlacedGreedily(images, sheet.placements, margin, spacing) && StopsRightly(images, sheet, margin, spacing)
  }

  /** The rectangle lies within the margins of the sheet. */
  predicate Inside(p: Placement, margin: int) {
    margin <= p.x && p.x + p.w <= A4_WIDTH - margin && margin <= p.y && p.y + p.h <= A4_HEIGHT - margin
  }

  predicate AllInside(ps: seq<Placement>, margin: int) {
    forall k :: 0 <= k < |ps| ==> Inside(ps[k], margin)
  }

  /** The two rectangles share no pixel. */
  predicate Apart(p: Placement, q: Placement) {
    p.x + p.w <= q.x || q.x + q.w <= p.x || p.y + p.h <= q.y || q.y + q.h <= p.y
  }

  predicate NoOverlap(ps: seq<Placement>) {
    forall i, j :: 0 <= i < j < |ps| ==> Apart(ps[i], ps[j])
  }

  /** Rows come top to bottom and each row left to right: a later image is in
      the same row, spacing right of the earlier one, or in a lower row that
      starts at least spacing below it. */
  predicate RowOrdered(ps: seq<Placement>, spacing: int) {
    forall i, j :: 0 <= i < j < |ps| ==>
      && ps[i].y <= ps[j].y
      && (ps[i].y == ps[j].y ==> ps[i].x + ps[i].w + spacing <= ps[j].x)
      && (ps[i].y < ps[j].y ==> ps[i].y + ps[i].h + spacing <= ps[j].y)
  }

  /** Every rectangle has pixels and fits between the side margins. */
  predicate Boxes(ps: seq<Placement>, margin: int) {
    forall k :: 0 <= k < |ps| ==> 0 < ps[k].w <= UsableWidth(margin) && 0 < ps[k].h
  }

  /** What the cursor knows about the placements behind it: every image is in
      its row or above; those in its row end spacing left of it and are no
      taller than the row; those above end spacing above it. */
  predicate CursorBehind(ps: seq<Placement>, margin: int, spacing: int) {
    var c := CursorAfter(ps, margin, spacing);
    && margin <= c.x && margin <= c.y && 0 <= c.rowHeight
    && forall k :: 0 <= k < |ps| ==>
      && ps[k].y <= c.y
      && (ps[k].y == c.y ==> ps[k].x + ps[k].w + spacing <= c.x && ps[k].h <= c.rowHeight)
      && (ps[k].y < c.y ==> ps[k].y + ps[k].h + spacing <= c.y)
  }

  lemma {:induction false} RowHeightBounds(ps: seq<Placement>, y: int)
    ensures RowHeight(ps, y) >= 0
    ensures forall k :: 0 <= k < |ps| && ps[k].y == y ==> ps[k].h <= RowHeight(ps, y)
    ensures (forall k :: 0 <= k < |ps| ==> ps[k].y < y) ==> RowHeight(ps, y) == 0
    ensures RowHeight(ps, y) == 0 || exists k :: 0 <= k < |ps| && ps[k].y == y && ps[k].h == RowHeight(ps, y)
  {
    if ps != [] {
      RowHeightBounds(ps[..|ps| - 1], y);
    }
  }

  /** A prefix of a greedy layout is the greedy layout of fewer images. */
  lemma GreedyPrefix(images: seq<Image>, ps: seq<Placement>, n: int, margin: int, spacing: int)
    requires AllPositive(images) && ValidMargin(margin)
    requires PlacedGreedily(images, ps, margin, spacing) && 0 <= n <= |ps|
    ensures PlacedGreedily(images, ps[..n], margin, spacing)
  {
    forall k | 0 <= k < n ensures PlacedAt(images, ps[..n], k, margin, spacing) {
      assert ps[..n][..k] == ps[..k];
      assert PlacedAt(images, ps, k, margin, spacing);
    }
  }

  /** Appending the next image at the place the shelf rule gives it keeps the
      layout greedy. */
  lemma GreedyExtend(images: seq<Image>, ps: seq<Placement>, p: Placement, margin: int, spacing: int)
    requires AllPositive(images) && ValidMargin(margin)
    requires PlacedGreedily(images, ps, margin, spacing) && |ps| < |images|
    requires PlacedAt(images, ps + [p], |ps|, margin, spacing)
    ensures PlacedGreedily(images, ps + [p], margin, spacing)
  {
    var qs := ps + [p];
    forall k | 0 <= k < |qs| ensures PlacedAt(images, qs, k, margin, spacing) {
      if k < |ps| {
        assert qs[..k] == ps[..k];
        assert PlacedAt(images, ps, k, margin, spacing);
      }
    }
  }

  /** p comes after every placement of ps in the row order. */
  predicate After(ps: seq<Placement>, p: Placement, spacing: int) {
    forall k :: 0 <= k < |ps| ==>
      && ps[k].y <= p.y
      && (ps[k].y == p.y ==> ps[k].x + ps[k].w + spacing <= p.x)
      && (ps[k].y < p.y ==> ps[k].y + ps[k].h + spacing <= p.y)
  }

  lemma OrderedAppend(ps: seq<Placement>, p: Placement, spacing: int)
    requires RowOrdered(ps, spacing) && After(ps, p, spacing)
    ensures RowOrdered(ps + [p], spacing)
  {
    var qs := ps + [p];
    forall i, j | 0 <= i < j < |qs|
      ensures qs[i].y <= qs[j].y
      ensures qs[i].y == qs[j].y ==> qs[i].x + qs[i].w + spacing <= qs[j].x
      ensures qs[i].y < qs[j].y ==> qs[i].y + qs[i].h + spacing <= qs[j].y
    {
      if j < |ps| {
        assert qs[i] == ps[i] && qs[j] == ps[j];
      }
    }
  }

  /** The cursor after the wrap rule is past every placement behind it, and
      the row it stands in holds exactly the height it records. */
  lemma WrapBehind(ps: seq<Placement>, w: int, margin: int, spacing: int)
    requires ValidMargin(margin) && 0 <= spacing
    requires Boxes(ps, margin) && CursorBehind(ps, margin, spacing)
    ensures var c := WrapIfNeeded(CursorAfter(ps, margin, spacing), w, margin, spacing);
      && RowHeight(ps, c.y) == c.rowHeight
      && After(ps, Placement(0, c.x, c.y, 0, 0), spacing)
      && forall k :: 0 <= k < |ps| && ps[k].y == c.y ==> ps[k].h <= c.rowHeight
  {
    var c := CursorAfter(ps, margin, spacing);
    var c1 := WrapIfNeeded(c, w, margin, spacing);
    RowHeightBounds(ps, c.y);
    if c1 != c {
      forall k | 0 <= k < |ps| ensures ps[k].y < c1.y {
      }
      RowHeightBounds(ps, c1.y);
    }
  }

  /** After one image is placed by the shelf rule, the cursor is spacing right
      of it, in its row, with the row height updated to include it, and still
      past every placement. */
  lemma CursorStep(ps: seq<Placement>, p: Placement, margin: int, spacing: int)
    requires ValidMargin(margin) && 0 <= spacing
    requires Boxes(ps, margin) && CursorBehind(ps, margin, spacing)
    requires 0 < p.w <= UsableWidth(margin) && 0 < p.h
    requires var c := WrapIfNeeded(CursorAfter(ps, margin, spacing), p.w, margin, spacing);
      p.x == c.x && p.y == c.y
    ensures CursorBehind(ps + [p], margin, spacing)
    ensures var c := WrapIfNeeded(CursorAfter(ps, margin, spacing), p.w, margin, spacing);
      CursorAfter(ps + [p], margin, spacing) == Cursor(c.x + p.w + spacing, c.y, Max(c.rowHeight, p.h))
  {
    var qs := ps + [p];
    var c1 := WrapIfNeeded(CursorAfter(ps, margin, spacing), p.w, margin, spacing);
    WrapBehind(ps, p.w, margin, spacing);
    assert qs[..|ps|] == ps;
    var c2 := CursorAfter(qs, margin, spacing);
    assert c2 == Cursor(c1.x + p.w + spacing, c1.y, Max(c1.rowHeight, p.h));
    forall k | 0 <= k < |qs|
      ensures qs[k].y <= c2.y
      ensures qs[k].y == c2.y ==> qs[k].x + qs[k].w + spacing <= c2.x && qs[k].h <= c2.rowHeight
      ensures qs[k].y < c2.y ==> qs[k].y + qs[k].h + spacing <= c2.y
    {
      if k < |ps| {
        assert qs[k] == ps[k];
      }
    }
    assert margin <= c2.x && margin <= c2.y && 0 <= c2.rowHeight;
  }

  lemma BoxesAppend(ps: seq<Placement>, p: Placement, margin: int)
    requires Boxes(ps, margin) && 0 < p.w <= UsableWidth(margin) && 0 < p.h
    ensures Boxes(ps + [p], margin)
  {
    var qs := ps + [p];
    forall k | 0 <= k < |qs| ensures 0 < qs[k].w <= UsableWidth(margin) && 0 < qs[k].h {
      if k < |ps| {
        assert qs[k] == ps[k];
      }
    }
  }

  lemma InsideAppend(ps: seq<Placement>, p: Placement, margin: int)
    requires AllInside(ps, margin) && Inside(p, margin)
    ensures AllInside(ps + [p], margin)
  {
    var qs := ps + [p];
    forall k | 0 <= k < |qs| ensures Inside(qs[k], margin) {
      if k < |ps| {
        assert qs[k] == ps[k];
      }
    }
  }

  /** One image placed by the shelf rule keeps the cursor facts, the row order
      and the margins. */
  lemma PlaceStep(ps: seq<Placement>, p: Placement, margin: int, spacing: int)
    requires ValidMargin(margin) && 0 <= spacing
    requires Boxes(ps, margin) && CursorBehind(ps, margin, spacing)
    requires RowOrdered(ps, spacing) && AllInside(ps, margin)
    requires 0 < p.w <= UsableWidth(margin) && 0 < p.h
    requires p.y + p.h <= A4_HEIGHT - margin
    requires var c := WrapIfNeeded(CursorAfter(ps, margin, spacing), p.w, margin, spacing);
      p.x == c.x && p.y == c.y
    ensures Boxes(ps + [p], margin) && CursorBehind(ps + [p], margin, spacing)
    ensures RowOrdered(ps + [p], spacing) && AllInside(ps + [p], margin)
  {
    var c := CursorAfter(ps, margin, spacing);
    CursorStep(ps, p, margin, spacing);
    WrapBehind(ps, p.w, margin, spacing);
    assert After(ps, p, spacing);
    OrderedAppend(ps, p, spacing);
    BoxesAppend(ps, p, margin);
    assert margin <= c.x && margin <= c.y;
    assert Inside(p, margin);
    InsideAppend(ps, p, margin);
  }

  /** Every greedy layout stays inside the margins, is ordered in rows, and
      leaves the cursor behind all its images. */
  lemma {:induction false} GreedyFacts(images: seq<Image>, ps: seq<Placement>, margin: int, spacing: int)
    requires AllPositive(images) && ValidMargin(margin) && 0 <= spacing
    requires PlacedGreedily(images, ps, margin, spacing)
    ensures Boxes(ps, margin) && CursorBehind(ps, margin, spacing)
    ensures RowOrdered(ps, spacing) && AllInside(ps, margin)
    decreases |ps|
  {
    if ps != [] {
      var n := |ps| - 1;
      GreedyPrefix(images, ps, n, margin, spacing);
      GreedyFacts(images, ps[..n], margin, spacing);
      assert PlacedAt(images, ps, n, margin, spacing);
      PlaceStep(ps[..n], ps[n], margin, spacing);
      assert ps[..n] + [ps[n]] == ps;
    }
  }

  /** Rows ordered with a non-negative spacing never overlap. */
  lemma RowOrderedApart(ps: seq<Placement>, spacing: int)
    requires RowOrdered(ps, spacing) && 0 <= spacing
    ensures NoOverlap(ps)
  {
    forall i, j | 0 <= i < j < |ps| ensures Apart(ps[i], ps[j]) {
      assert ps[i].y <= ps[j].y;
    }
  }

  /** No two images of a greedy layout overlap. */
  lemma GreedyNoOverlap(images: seq<Image>, ps: seq<Placement>, margin: int, spacing: int)
    requires AllPositive(images) && ValidMargin(margin) && 0 <= spacing
    requires PlacedGreedily(images, ps, margin, spacing)
    ensures NoOverlap(ps) && AllInside(ps, margin)
  {
    GreedyFacts(images, ps, margin, spacing);
    RowOrderedApart(ps, spacing);
  }

  /** Consecutive images: the next one is in the same row, spacing right of
      the previous one, exactly when it fits before the right margin; else it
      starts a new row at the left margin, spacing below the tallest image of
      the previous row. */
  lemma NextInRowOrBelow(images: seq<Image>, ps: seq<Placement>, k: int, margin: int, spacing: int)
    requires AllPositive(images) && ValidMargin(margin) && 0 <= spacing
    requires PlacedGreedily(images, ps, margin, spacing) && 0 <= k && k + 1 < |ps|
    ensures var p, q := ps[k], ps[k + 1];
      (q.y == p.y <==> p.x + p.w + spacing + q.w <= A4_WIDTH - margin)
      && (q.y == p.y ==> q.x == p.x + p.w + spacing)
      && (q.y != p.y ==> q.x == margin && q.y == p.y + RowHeight(ps[..k + 1], p.y) + spacing)
  {
    assert PlacedAt(images, ps, k + 1, margin, spacing);
    assert ps[..k + 1][k] == ps[k];
    GreedyPrefix(images, ps, k + 1, margin, spacing);
    GreedyFacts(images, ps[..k + 1], margin, spacing);
    RowHeightBounds(ps[..k + 1], ps[k].y);
    assert ps[k].h <= RowHeight(ps[..k + 1], ps[k].y);
  }

  /** Two greedy layouts of the same images agree on the images both placed. */
  lemma {:induction false} GreedyAgree(images: seq<Image>, ps: seq<Placement>, qs: seq<Placement>,
                                       n: int, margin: int, spacing: int)
    requires AllPositive(images) && ValidMargin(margin)
    requires PlacedGreedily(images, ps, margin, spacing) && PlacedGreedily(images, qs, margin, spacing)
    requires 0 <= n <= |ps| && n <= |qs|
    ensures ps[..n] == qs[..n]
  {
    if n > 0 {
      GreedyAgree(images, ps, qs, n - 1, margin, spacing);
      assert PlacedAt(images, ps, n - 1, margin, spacing);
      assert PlacedAt(images, qs, n - 1, margin, spacing);
      assert ps[n - 1] == qs[n - 1];
      assert ps[..n] == ps[..n - 1] + [ps[n - 1]];
      assert qs[..n] == qs[..n - 1] + [qs[n - 1]];
    }
  }

  /** A layout that stops where qs still places an image cannot be greedy. */
  lemma StopsNoEarlier(images: seq<Image>, s: Sheet, qs: seq<Placement>, margin: int, spacing: int)
    requires AllPositive(images) && ValidMargin(margin)
    requires IsShelfLayout(images, s, margin, spacing) && PlacedGreedily(images, qs, margin, spacing)
    ensures |qs| <= |s.placements|
  {
    var n := |s.placements|;
    if n < |qs| {
      assert PlacedAt(images, qs, n, margin, spacing);
      assert s.placements[..n] == s.placements;
      GreedyAgree(images, s.placements, qs, n, margin, spacing);
      assert false;
    }
  }

  /** The shelf rule determines the sheet: there is only one shelf layout of
      a list of images. */
  lemma ShelfLayoutUnique(images: seq<Image>, s: Sheet, t: Sheet, margin: int, spacing: int)
    requires AllPositive(images) && ValidMargin(margin)
    requires IsShelfLayout(images, s, margin, spacing) && IsShelfLayout(images, t, margin, spacing)
    ensures s == t
  {
    StopsNoEarlier(images, s, t.placements, margin, spacing);
    StopsNoEarlier(images, t, s.placements, margin, spacing);
    var n := |s.placements|;
    GreedyAgree(images, s.placements, t.placements, n, margin, spacing);
    assert s.placements == t.placements;
  }

  /** Four 591-pixel squares (5 cm at 300 DPI) with a 118-pixel margin and a
      20-pixel spacing: three fit in the first row, the fourth wraps to a
      second row. */
  lemma FourSquares()
    ensures var sq := Image(591, 591);
      IsShelfLayout([sq, sq, sq, sq],
                    Sheet([Placement(0, 118, 118, 591, 591), Placement(1, 729, 118, 591, 591),
                           Placement(2, 1340, 118, 591, 591), Placement(3, 118, 729, 591, 591)],
                          AllPlaced),
                    118, 20)
  {
    var sq := Image(591, 591);
    var ps := [Placement(0, 118, 118, 591, 591), Placement(1, 729, 118, 591, 591),
               Placement(2, 1340, 118, 591, 591), Placement(3, 118, 729, 591, 591)];
    assert ps[..1] == [ps[0]] && ps[..2] == [ps[0], ps[1]] && ps[..3] == [ps[0], ps[1], ps[2]];
    assert RowHeight(ps[..1], 118) == 591;
    assert RowHeight(ps[..2], 118) == 591;
    assert ps[..3][..2] == ps[..2];
    assert RowHeight(ps[..3], 118) == 591;
    forall k | 0 <= k < 4 ensures PlacedAt([sq, sq, sq, sq], ps, k, 118, 20) {
    }
  }

  /** A tall image, then one too wide for the sheet: the wide one is scaled to
      2380 by 476 pixels, wraps under the tall one, and would cross the bottom
      margin, so the layout stops with one image placed. */
  lemma TallThenWide()
    ensures IsShelfLayout([Image(600, 3000), Image(5000, 1000), Image(100, 100)],
                          Sheet([Placement(0, 50, 50, 600, 3000)], SheetFull), 50, 20)
  {
    var images := [Image(600, 3000), Image(5000, 1000), Image(100, 100)];
    var ps := [Placement(0, 50, 50, 600, 3000)];
    assert PlacedAt(images, ps, 0, 50, 20);
    assert Fitted(images[1], 50) == Some(Image(2380, 476));
  }

  /** The placement loop of the packer (Tetrisimagen.py:16-43): for each
      image, shrink it if it is too wide, wrap to a new row if it would cross
      the right margin, stop if it would cross the bottom margin, and
      otherwise place it and move the cursor on. */
  method Pack(images: seq<Image>, margin: int, spacing: int) returns (sheet: Sheet)
    requires ValidMargin(margin) && 0 <= spacing && AllPositive(images)
    ensures IsShelfLayout(images, sheet, margin, spacing)
    ensures AllInside(sheet.placements, margin)
    ensures NoOverlap(sheet.placements)
    ensures RowOrdered(sheet.placements, spacing)
  {
    var x, y := margin, margin;
    var rowHeight := 0;
    var placed: seq<Placement> := [];
    var outcome := AllPlaced;
    var i := 0;
    while i < |images|
      invariant 0 <= i <= |images| && |placed| == i
      invariant PlacedGreedily(images, placed, margin, spacing)
      invariant Cursor(x, y, rowHeight) == CursorAfter(placed, margin, spacing)
      invariant outcome == AllPlaced
    {
      var fit := Fitted(images[i], margin);
      if fit.None? {
        outcome := ResizeRejected;
        break;
      }
      var w, h := fit.value.w, fit.value.h;
      if x + w > A4_WIDTH - margin {
        x := margin;
        y := y + rowHeight + spacing;
        rowHeight := 0;
      }
      if y + h > A4_HEIGHT - margin {
        outcome := SheetFull;
        break;
      }
      var p := Placement(i, x, y, w, h);
      GreedyFacts(images, placed, margin, spacing);
      CursorStep(placed, p, margin, spacing);
      assert (placed + [p])[..i] == placed;
      GreedyExtend(images, placed, p, margin, spacing);
      placed := placed + [p];
      x := x + w + spacing;
      rowHeight := Max(rowHeight, h);
      i := i + 1;
    }
    sheet := Sheet(placed, outcome);
    GreedyFacts(images, placed, margin, spacing);
    RowOrderedApart(placed, spacing);
  }

  /** montar_folha: sorts the caller's list tallest-first in place, then lays
      the images out on one sheet in that order. */
  method MountSheet(images: array<Image>, margin: int, spacing: int) returns (sheet: Sheet)
    requires ValidMargin(margin) && 0 <= spacing && AllPositive(images[..])
    modifies images
    ensures images[..] == TallestFirst(old(images[..]))
    ensures AllPositive(images[..])
    ensures IsShelfLayout(images[..], sheet, margin, spacing)
    ensures AllInside(sheet.placements, margin) && NoOverlap(sheet.placements)
  {
    ghost var input := images[..];
    SortTallestFirst(images);
    TallestFirstPermutes(input);
    forall k | 0 <= k < images.Length ensures Positive(images[k]) {
      assert images[..][k] in multiset(input);
    }
    sheet := Pack(images[..], margin, spacing);
  }
}
