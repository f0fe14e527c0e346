/** The diff tooltip: when the cursor rests on a marked pixel of the diff
    mask, report the first cached region whose box holds the cursor. */
module Hover {
  import opened Wrappers
  import opened Geometry
  import DiffRegions

  /** The hit test as the lookup writes it: both edges inclusive, so a box
      of `width` columns also accepts column `x + width`, one past its last
      pixel, and likewise row `y + height`. */
  predicate CoversInclusive(r: DiffRegions.Region, p: Point) {
    r.x <= p.x <= r.x + r.width && r.y <= p.y <= r.y + r.height
  }

  /** No region before index `n` passes `CoversInclusive`. */
  predicate NoInclusiveHitBefore(regions: seq<DiffRegions.Region>, p: Point, n: int) {
    forall j :: 0 <= j < n && j < |regions| ==> !CoversInclusive(regions[j], p)
  }

  /** `cachedRegions.find(...)` as written: the first region accepted by the
      inclusive hit test. */
  function FindInclusive(regions: seq<DiffRegions.Region>, p: Point): (r: Option<DiffRegions.Region>)
    ensures r.None? <==> NoInclusiveHitBefore(regions, p, |regions|)
    ensures r.Some? ==> exists i :: 0 <= i < |regions| && regions[i] == r.value
                                 && CoversInclusive(r.value, p) && NoInclusiveHitBefore(regions, p, i)
  {
    if |regions| == 0 then None
    else if CoversInclusive(regions[0], p) then
      assert NoInclusiveHitBefore(regions, p, 0);
      Some(regions[0])
    else
      var r := FindInclusive(regions[1..], p);
      if r.Some? then
        var i :| 0 <= i < |regions[1..]| && regions[1..][i] == r.value
                 && CoversInclusive(r.value, p) && NoInclusiveHitBefore(regions[1..], p, i);
        assert regions[i + 1] == r.value;
        assert NoInclusiveHitBefore(regions, p, i + 1) by {
          forall j | 0 <= j < i + 1
            ensures !CoversInclusive(regions[j], p)
          {
            if j > 0 { assert regions[j] == regions[1..][j - 1]; }
          }
        }
        r
      else
        assert NoInclusiveHitBefore(regions, p, |regions|) by {
          forall j | 0 <= j < |regions|
            ensures !CoversInclusive(regions[j], p)
          {
            if j > 0 { assert regions[j] == regions[1..][j - 1]; }
          }
        }
        r
  }

  /** No region before index `n` holds `p`. */
  predicate NoHitBefore(regions: seq<DiffRegions.Region>, p: Point, n: int) {
    forall j :: 0 <= j < n && j < |regions| ==> !DiffRegions.InBox(regions[j], p)
  }

  /** The corrected lookup: the first region whose `width` columns and
      `height` rows hold the cursor. */
  function Find(regions: seq<DiffRegions.Region>, p: Point): (r: Option<DiffRegions.Region>)
    ensures r.None? <==> NoHitBefore(regions, p, |regions|)
    ensures r.Some? ==> exists i :: 0 <= i < |regions| && regions[i] == r.value
                                 && DiffRegions.InBox(r.value, p) && NoHitBefore(regions, p, i)
  {
    if |regions| == 0 then None
    else if DiffRegions.InBox(regions[0], p) then
      assert NoHitBefore(regions, p, 0);
      Some(regions[0])
    else
      var r := Find(regions[1..], p);
      if r.Some? then
        var i :| 0 <= i < |regions[1..]| && regions[1..][i] == r.value
                 && DiffRegions.InBox(r.value, p) && NoHitBefore(regions[1..], p, i);
        assert regions[i + 1] == r.value;
        assert NoHitBefore(regions, p, i + 1) by {
          forall j | 0 <= j < i + 1
            ensures !DiffRegions.InBox(regions[j], p)
          {
            if j > 0 { assert regions[j] == regions[1..][j - 1]; }
          }
        }
        r
      else
        assert NoHitBefore(regions, p, |regions|) by {
          forall j | 0 <= j < |regions|
            ensures !DiffRegions.InBox(regions[j], p)
          {
            if j > 0 { assert regions[j] == regions[1..][j - 1]; }
          }
        }
        r
  }

  /** The cursor's pixel is read at `(y * width + x) * 4 + 3`; an offset
      outside the buffer reads as undefined, which is not greater than 0. */
  predicate CursorOnDiff(img: DiffRegions.Image, p: Point) {
    var i := (p.y * img.width + p.x) * 4 + 3;
    0 <= i < |img.data| && img.data[i] > 0
  }

  /** `handleDiffHover` as written: the region whose size the tooltip shows,
      or `None` when the tooltip is hidden. */
  function TooltipAsWritten(img: DiffRegions.Image, regions: seq<DiffRegions.Region>, p: Point)
    : (r: Option<DiffRegions.Region>)
    ensures r.Some? ==> CursorOnDiff(img, p) && r.value in regions && CoversInclusive(r.value, p)
    ensures !CursorOnDiff(img, p) ==> r.None?
    ensures CursorOnDiff(img, p) ==> r == FindInclusive(regions, p)
  {
    if CursorOnDiff(img, p) then FindInclusive(regions, p) else None
  }

  /** The tooltip with the corrected lookup. */
  function Tooltip(img: DiffRegions.Image, regions: seq<DiffRegions.Region>, p: Point)
    : (r: Option<DiffRegions.Region>)
    ensures r.Some? ==> CursorOnDiff(img, p) && r.value in regions && DiffRegions.InBox(r.value, p)
    ensures !CursorOnDiff(img, p) ==> r.None?
    ensures CursorOnDiff(img, p) ==> r == Find(regions, p)
  {
    if CursorOnDiff(img, p) then Find(regions, p) else None
  }

  /** Two side-by-side 6 by 6 regions: the cursor on column 6 is inside the
      second box only, yet the inclusive lookup names the first. */
  lemma InclusiveLookupNamesNeighbour()
    ensures var a, b := DiffRegions.Region(0, 0, 6, 6), DiffRegions.Region(6, 0, 6, 6);
            && !DiffRegions.InBox(a, Point(6, 0)) && DiffRegions.InBox(b, Point(6, 0))
            && FindInclusive([a, b], Point(6, 0)) == Some(a)
  {
  }

  /** The corrected lookup names the region that holds the cursor. */
  lemma CorrectedLookupNamesOwner()
    ensures var a, b := DiffRegions.Region(0, 0, 6, 6), DiffRegions.Region(6, 0, 6, 6);
            Find([a, b], Point(6, 0)) == Some(b)
  {
    var a, b := DiffRegions.Region(0, 0, 6, 6), DiffRegions.Region(6, 0, 6, 6);
    assert !DiffRegions.InBox(a, Point(6, 0));
    assert [a, b][1..] == [b];
  }

  /** Over the regions the scan keeps, a pixel of a kept fill is always
      found, and what is found holds the pixel. */
  lemma FindsKeptFill(regions: seq<DiffRegions.Region>, boxes: seq<DiffRegions.Region>,
                      fills: seq<set<Point>>, i: int, p: Point)
    requires regions == DiffRegions.Kept(boxes) && |boxes| == |fills|
    requires 0 <= i < |fills| && DiffRegions.BoundingBox(boxes[i], fills[i])
    requires DiffRegions.Large(boxes[i]) && p in fills[i]
    ensures Find(regions, p).Some? && DiffRegions.InBox(Find(regions, p).value, p)
  {
    assert DiffRegions.InBox(boxes[i], p);
    assert boxes[i] in regions;
    var k :| 0 <= k < |regions| && regions[k] == boxes[i];
    assert !NoHitBefore(regions, p, |regions|);
  }

  /** Wherever the corrected lookup answers, the inclusive one answers too:
      the inclusive lookup only errs by answering more often or with an
      earlier neighbour. */
  lemma InclusiveAnswersWhereCorrectDoes(regions: seq<DiffRegions.Region>, p: Point)
    requires Find(regions, p).Some?
    ensures FindInclusive(regions, p).Some?
  {
    var i :| 0 <= i < |regions| && DiffRegions.InBox(regions[i], p);
    assert CoversInclusive(regions[i], p);
    assert !NoInclusiveHitBefore(regions, p, |regions|);
  }
}
