/** Grouping the marked pixels of a diff mask into rectangular regions:
    strided seeds, a stack-based 4-connected flood fill sharing one visited
    set, and the first-match lookup used for hover tooltips. */
module DiffRegions {
  import opened Geometry
  import DiffMask

  /** An RGBA raster: `width * height` pixels of four bytes, row by row. */
  datatype Image = Image(width: nat, height: nat, data: seq<DiffMask.byte>)

  /** The byte offset at which row `y` begins: `y` rows of `4 * w` bytes,
      added up row by row. */
  function RowStart(w: nat, y: nat): nat {
    if y == 0 then 0 else RowStart(w, y - 1) + 4 * w
  }

  lemma {:induction false} RowStartIsProduct(w: nat, y: nat)
    ensures RowStart(w, y) == 4 * (y * w)
  {
    if y > 0 {
      RowStartIsProduct(w, y - 1);
      assert y * w == (y - 1) * w + w;
    }
  }

  lemma {:induction false} RowStartMonotone(w: nat, a: nat, b: nat)
    requires a <= b
    ensures RowStart(w, a) <= RowStart(w, b)
  {
    if a < b {
      RowStartMonotone(w, a, b - 1);
    }
  }

  /** The buffer holds exactly `height` rows. */
  predicate Valid(img: Image) {
    |img.data| == RowStart(img.width, img.height)
  }

  /** A valid raster has `4 * width * height` bytes, as `ImageData` does. */
  lemma ValidSize(img: Image)
    requires Valid(img)
    ensures |img.data| == 4 * (img.width * img.height)
  {
    RowStartIsProduct(img.width, img.height);
  }

  predicate InBounds(img: Image, p: Point) {
    0 <= p.x < img.width && 0 <= p.y < img.height
  }

  /** The offset of the pixel's red byte. */
  function PixelIndex(img: Image, p: Point): nat
    requires InBounds(img, p)
  {
    RowStart(img.width, p.y) + 4 * p.x
  }

  /** The offset is `getIndex(x, y) = (y * width + x) * 4`. */
  lemma PixelIndexIsGetIndex(img: Image, p: Point)
    requires InBounds(img, p)
    ensures PixelIndex(img, p) == (p.y * img.width + p.x) * 4
  {
    RowStartIsProduct(img.width, p.y);
  }

  /** Every in-bounds pixel's four bytes lie inside the raster. */
  lemma PixelIndexInRange(img: Image, p: Point)
    requires Valid(img) && InBounds(img, p)
    ensures PixelIndex(img, p) + 3 < |img.data|
  {
    RowStartMonotone(img.width, p.y + 1, img.height);
  }

  /** `getIndex` is injective on in-bounds pixels, so keying the visited set
      by pixel instead of by byte offset changes nothing. */
  lemma PixelIndexInjective(img: Image, p: Point, q: Point)
    requires InBounds(img, p) && InBounds(img, q)
    requires PixelIndex(img, p) == PixelIndex(img, q)
    ensures p == q
  {
    if p.y < q.y {
      RowStartMonotone(img.width, p.y + 1, q.y);
    } else if q.y < p.y {
      RowStartMonotone(img.width, q.y + 1, p.y);
    }
  }

  /** The alpha byte of an in-bounds pixel. */
  function Alpha(img: Image, p: Point): DiffMask.byte
    requires Valid(img) && InBounds(img, p)
  {
    PixelIndexInRange(img, p);
    img.data[PixelIndex(img, p) + 3]
  }

  /** A marked (non-transparent) pixel of the mask. */
  predicate Lit(img: Image, p: Point)
    requires Valid(img)
  {
    InBounds(img, p) && Alpha(img, p) > 0
  }

  /** All pixel positions of a `w` by `h` raster. */
  function CellsOf(w: nat, h: nat): set<Point> {
    set x: int, y: int | 0 <= x < w && 0 <= y < h :: Point(x, y)
  }

  function Cells(img: Image): set<Point> {
    CellsOf(img.width, img.height)
  }

  lemma InBoundsIsCell(img: Image, p: Point)
    requires InBounds(img, p)
    ensures p in Cells(img)
  {
    assert p == Point(p.x, p.y);
  }

  function RowOf(w: nat, y: int): set<Point> {
    set x: int | 0 <= x < w :: Point(x, y)
  }

  lemma {:induction false} RowCard(w: nat, y: int)
    ensures |RowOf(w, y)| == w
  {
    if w > 0 {
      assert RowOf(w, y) == RowOf(w - 1, y) + {Point(w - 1, y)};
      RowCard(w - 1, y);
    } else {
      assert RowOf(w, y) == {};
    }
  }

  lemma CellsSplit(w: nat, h: nat)
    requires h > 0
    ensures CellsOf(w, h) == CellsOf(w, h - 1) + RowOf(w, h - 1)
    ensures CellsOf(w, h - 1) !! RowOf(w, h - 1)
  {
    forall p | p in CellsOf(w, h)
      ensures p in CellsOf(w, h - 1) + RowOf(w, h - 1)
    {
      if p.y < h - 1 {
        assert p == Point(p.x, p.y);
      } else {
        assert p == Point(p.x, h - 1);
      }
    }
  }

  /** A `w` by `h` raster has exactly `w * h` pixel positions. */
  lemma {:induction false} CellsCard(w: nat, h: nat)
    ensures |CellsOf(w, h)| == w * h
  {
    if h > 0 {
      CellsSplit(w, h);
      CellsCard(w, h - 1);
      RowCard(w, h - 1);
      assert w * h == w * (h - 1) + w;
    } else {
      assert CellsOf(w, h) == {};
    }
  }

  /** A bounding box as `findDiffRegions` returns it: the top-left corner
      and the number of columns and rows. */
  datatype Region = Region(x: int, y: int, width: int, height: int)

  /** The pixel lies in the box's `width` columns and `height` rows. */
  predicate InBox(r: Region, p: Point) {
    r.x <= p.x < r.x + r.width && r.y <= p.y < r.y + r.height
  }

  /** `box` is the smallest box holding `s`: every pixel of `s` is inside and
      each of the four edges is touched by some pixel of `s`. */
  predicate BoundingBox(box: Region, s: set<Point>) {
    && (forall p :: p in s ==> InBox(box, p))
    && (exists p :: p in s && p.x == box.x)
    && (exists p :: p in s && p.x == box.x + box.width - 1)
    && (exists p :: p in s && p.y == box.y)
    && (exists p :: p in s && p.y == box.y + box.height - 1)
  }

  /** The four neighbours, in the order the fill pushes them. */
  function Neighbours(p: Point): seq<Point> {
    [Point(p.x + 1, p.y), Point(p.x - 1, p.y), Point(p.x, p.y + 1), Point(p.x, p.y - 1)]
  }

  /** `q` is already in `s`, still waiting on the stack, or not a marked pixel. */
  predicate Handled(img: Image, s: set<Point>, stack: seq<Point>, q: Point)
    requires Valid(img)
  {
    q in s || q in stack || !Lit(img, q)
  }

  predicate NeighboursHandled(img: Image, s: set<Point>, stack: seq<Point>, p: Point)
    requires Valid(img)
  {
    && Handled(img, s, stack, Point(p.x + 1, p.y))
    && Handled(img, s, stack, Point(p.x - 1, p.y))
    && Handled(img, s, stack, Point(p.x, p.y + 1))
    && Handled(img, s, stack, Point(p.x, p.y - 1))
  }

  /** No marked pixel 4-adjacent to a pixel of `s` lies outside `s`: `s` is
      a union of connected components of the marked pixels. */
  predicate Closed(img: Image, s: set<Point>)
    requires Valid(img)
  {
    forall p {:trigger NeighboursHandled(img, s, [], p)} :: p in s ==> NeighboursHandled(img, s, [], p)
  }

  /** Adjacency is symmetric: a closed set that contains a neighbour of a
      marked pixel contains the pixel too. */
  lemma ClosedReachesBack(img: Image, s: set<Point>, p: Point, q: Point)
    requires Valid(img) && Closed(img, s)
    requires q in s && q in Neighbours(p) && Lit(img, p)
    ensures p in s
  {
    assert NeighboursHandled(img, s, [], q);
    if q == Point(p.x + 1, p.y) {
      assert p == Point(q.x - 1, q.y);
    } else if q == Point(p.x - 1, p.y) {
      assert p == Point(q.x + 1, q.y);
    } else if q == Point(p.x, p.y + 1) {
      assert p == Point(q.x, q.y - 1);
    } else {
      assert p == Point(q.x, q.y + 1);
    }
  }

  /** The fill's loop invariant on neighbours: every marked neighbour of a
      filled pixel is visited or still on the stack. */
  predicate AllHandled(img: Image, vis: set<Point>, stack: seq<Point>, filled: set<Point>)
    requires Valid(img)
  {
    forall p {:trigger NeighboursHandled(img, vis, stack, p)} :: p in filled ==> NeighboursHandled(img, vis, stack, p)
  }

  lemma HandledAfterPop(img: Image, vis: set<Point>, rest: seq<Point>, q: Point, n: Point)
    requires Valid(img) && (q in vis || !Lit(img, q))
    requires Handled(img, vis, rest + [q], n)
    ensures Handled(img, vis, rest, n)
  {
    if n in rest + [q] && n != q {
      assert n in rest;
    }
  }

  /** Popping a pixel that is skipped (already visited, or not marked)
      keeps the invariant. */
  lemma PopSkipped(img: Image, vis: set<Point>, rest: seq<Point>, q: Point, filled: set<Point>)
    requires Valid(img) && (q in vis || !Lit(img, q))
    requires AllHandled(img, vis, rest + [q], filled)
    ensures AllHandled(img, vis, rest, filled)
  {
    forall p | p in filled
      ensures NeighboursHandled(img, vis, rest, p)
    {
      assert NeighboursHandled(img, vis, rest + [q], p);
      HandledAfterPop(img, vis, rest, q, Point(p.x + 1, p.y));
      HandledAfterPop(img, vis, rest, q, Point(p.x - 1, p.y));
      HandledAfterPop(img, vis, rest, q, Point(p.x, p.y + 1));
      HandledAfterPop(img, vis, rest, q, Point(p.x, p.y - 1));
    }
  }

  lemma HandledAfterVisit(img: Image, vis: set<Point>, rest: seq<Point>, q: Point, n: Point)
    requires Valid(img)
    requires Handled(img, vis, rest + [q], n)
    ensures Handled(img, vis + {q}, rest + Neighbours(q), n)
  {
    if n in rest + [q] && n != q {
      assert n in rest;
      assert (rest + Neighbours(q))[IndexOf(rest, n)] == n;
    }
  }

  function IndexOf(s: seq<Point>, n: Point): (i: nat)
    requires n in s
    ensures i < |s| && s[i] == n
  {
    if s[0] == n then 0 else 1 + IndexOf(s[1..], n)
  }

  /** Visiting a popped pixel and pushing its four neighbours keeps the
      invariant, now including the visited pixel. */
  lemma PopVisited(img: Image, vis: set<Point>, rest: seq<Point>, q: Point, filled: set<Point>)
    requires Valid(img)
    requires AllHandled(img, vis, rest + [q], filled)
    ensures AllHandled(img, vis + {q}, rest + Neighbours(q), filled + {q})
  {
    var stack' := rest + Neighbours(q);
    forall p | p in filled + {q}
      ensures NeighboursHandled(img, vis + {q}, stack', p)
    {
      if p == q {
        assert stack'[|rest|] == Point(q.x + 1, q.y);
        assert stack'[|rest| + 1] == Point(q.x - 1, q.y);
        assert stack'[|rest| + 2] == Point(q.x, q.y + 1);
        assert stack'[|rest| + 3] == Point(q.x, q.y - 1);
      } else {
        assert NeighboursHandled(img, vis, rest + [q], p);
        HandledAfterVisit(img, vis, rest, q, Point(p.x + 1, p.y));
        HandledAfterVisit(img, vis, rest, q, Point(p.x - 1, p.y));
        HandledAfterVisit(img, vis, rest, q, Point(p.x, p.y + 1));
        HandledAfterVisit(img, vis, rest, q, Point(p.x, p.y - 1));
      }
    }
  }

  /** `b` is one of the four pixels the fill pushes after visiting `a`. */
  predicate Adjacent(a: Point, b: Point) {
    b in Neighbours(a)
  }

  /** `path` walks from `a` to `b` through pixels of `s`, one 4-neighbour
      step at a time. */
  ghost predicate IsPath(path: seq<Point>, s: set<Point>, a: Point, b: Point) {
    && |path| > 0 && path[0] == a && path[|path| - 1] == b
    && (forall i :: 0 <= i < |path| ==> path[i] in s)
    && (forall i :: 0 < i < |path| ==> Adjacent(path[i - 1], path[i]))
  }

  /** Every pixel of `s` is reached from `start` without leaving `s`. */
  ghost predicate Connected(s: set<Point>, start: Point) {
    forall q :: q in s ==> exists path :: IsPath(path, s, start, q)
  }

  /** The fill's reachability bookkeeping: `order` lists the filled pixels
      in visiting order from `start`, each later one pushed by the earlier
      pixel `parent` names; every pending stack entry was pushed by the
      visited pixel `from` names, except the start on the initial stack. */
  ghost predicate ReachInv(start: Point, filled: set<Point>, stack: seq<Point>, from: seq<int>,
                           order: seq<Point>, parent: seq<int>)
  {
    && |from| == |stack| && |parent| == |order|
    && filled == (set i | 0 <= i < |order| :: order[i])
    && (|order| > 0 ==> order[0] == start)
    && (forall k :: 0 < k < |order| ==> 0 <= parent[k] < k && Adjacent(order[parent[k]], order[k]))
    && (|order| == 0 ==> |stack| <= 1 && (|stack| == 1 ==> stack[0] == start))
    && (|order| > 0 ==> forall i :: 0 <= i < |stack| ==> 0 <= from[i] < |order| && Adjacent(order[from[i]], stack[i]))
  }

  lemma SplitLast(s: seq<Point>)
    requires |s| > 0
    ensures s == s[..|s| - 1] + [s[|s| - 1]]
  {
  }

  /** Popping a skipped pixel keeps the bookkeeping. */
  lemma ReachSkip(start: Point, filled: set<Point>, rest: seq<Point>, q: Point, from: seq<int>,
                  order: seq<Point>, parent: seq<int>)
    requires ReachInv(start, filled, rest + [q], from, order, parent)
    ensures ReachInv(start, filled, rest, from[..|rest|], order, parent)
  {
    if |order| > 0 {
      forall i | 0 <= i < |rest|
        ensures 0 <= from[i] < |order| && Adjacent(order[from[i]], rest[i])
      {
        assert rest[i] == (rest + [q])[i];
      }
    }
  }

  /** Visiting a popped pixel appends it to the order, with the pixel that
      pushed it as its parent, and its four neighbours are pushed by it. */
  lemma ReachVisit(start: Point, filled: set<Point>, rest: seq<Point>, q: Point, from: seq<int>,
                   order: seq<Point>, parent: seq<int>)
    requires ReachInv(start, filled, rest + [q], from, order, parent)
    ensures ReachInv(start, filled + {q}, rest + Neighbours(q),
                     from[..|rest|] + [|order|, |order|, |order|, |order|],
                     order + [q], parent + [from[|rest|]])
  {
    var stack := rest + [q];
    assert stack[|rest|] == q;
    var order', parent' := order + [q], parent + [from[|rest|]];
    var stack', from' := rest + Neighbours(q), from[..|rest|] + [|order|, |order|, |order|, |order|];
    if |order| == 0 {
      assert |rest| == 0 && q == start;
    }
    assert (set i | 0 <= i < |order'| :: order'[i]) == filled + {q} by {
      assert order'[|order|] == q;
      forall i | 0 <= i < |order|
        ensures order'[i] == order[i]
      {
      }
    }
    forall k | 0 < k < |order'|
      ensures 0 <= parent'[k] < k && Adjacent(order'[parent'[k]], order'[k])
    {
      if k < |order| {
        assert order'[k] == order[k] && parent'[k] == parent[k];
      }
    }
    forall i | 0 <= i < |stack'|
      ensures 0 <= from'[i] < |order'| && Adjacent(order'[from'[i]], stack'[i])
    {
      if i < |rest| {
        assert stack'[i] == stack[i] && from'[i] == from[i];
      } else {
        assert order'[from'[i]] == q && stack'[i] == Neighbours(q)[i - |rest|];
      }
    }
  }

  /** The visiting order gives every listed pixel a path from the start. */
  lemma {:induction false} PathTo(s: set<Point>, start: Point, order: seq<Point>, parent: seq<int>, k: int)
    returns (path: seq<Point>)
    requires |parent| == |order| && 0 <= k < |order| && order[0] == start
    requires forall i :: 0 <= i < |order| ==> order[i] in s
    requires forall j :: 0 < j < |order| ==> 0 <= parent[j] < j && Adjacent(order[parent[j]], order[j])
    ensures IsPath(path, s, start, order[k])
    decreases k
  {
    if k == 0 {
      path := [start];
    } else {
      var prefix := PathTo(s, start, order, parent, parent[k]);
      path := prefix + [order[k]];
      forall i | 0 < i < |path|
        ensures Adjacent(path[i - 1], path[i])
      {
        if i < |prefix| {
          assert path[i - 1] == prefix[i - 1] && path[i] == prefix[i];
        }
      }
    }
  }

  /** With the stack empty, every filled pixel is reached from the start. */
  lemma ReachDone(start: Point, filled: set<Point>, from: seq<int>, order: seq<Point>, parent: seq<int>)
    requires ReachInv(start, filled, [], from, order, parent)
    ensures Connected(filled, start)
  {
    forall q | q in filled
      ensures exists path :: IsPath(path, filled, start, q)
    {
      var k :| 0 <= k < |order| && order[k] == q;
      var path := PathTo(filled, start, order, parent, k);
    }
  }

  /** `path` walks from `a` to `b` over marked pixels, one 4-neighbour step
      at a time. */
  ghost predicate LitPath(img: Image, path: seq<Point>, a: Point, b: Point)
    requires Valid(img)
  {
    && |path| > 0 && path[0] == a && path[|path| - 1] == b
    && (forall i :: 0 <= i < |path| ==> Lit(img, path[i]))
    && (forall i :: 0 < i < |path| ==> Adjacent(path[i - 1], path[i]))
  }

  /** A closed set holding the first pixel of a marked path holds the
      whole path. */
  lemma {:induction false} ClosedKeepsLitPath(img: Image, s: set<Point>, path: seq<Point>, a: Point, b: Point)
    requires Valid(img) && Closed(img, s) && a in s && LitPath(img, path, a, b)
    ensures b in s
    decreases |path|
  {
    if |path| > 1 {
      var init := path[..|path| - 1];
      var c := init[|init| - 1];
      assert LitPath(img, init, a, c) by {
        forall i | 0 < i < |init|
          ensures Adjacent(init[i - 1], init[i])
        {
          assert init[i - 1] == path[i - 1] && init[i] == path[i];
        }
      }
      ClosedKeepsLitPath(img, s, init, a, c);
      assert Adjacent(c, b) by {
        assert path[|path| - 2] == c;
      }
      assert NeighboursHandled(img, s, [], c);
    }
  }

  /** A closed set of marked pixels, connected from `seed`, is exactly the
      connected component of `seed` among the marked pixels. */
  lemma FillIsComponent(img: Image, fill: set<Point>, seed: Point, q: Point)
    requires Valid(img) && seed in fill && Closed(img, fill) && Connected(fill, seed)
    requires forall p :: p in fill ==> Lit(img, p)
    ensures q in fill <==> exists path :: LitPath(img, path, seed, q)
  {
    if q in fill {
      var path :| IsPath(path, fill, seed, q);
      assert LitPath(img, path, seed, q);
    }
    if path :| LitPath(img, path, seed, q) {
      ClosedKeepsLitPath(img, fill, path, seed, q);
    }
  }

  /** Every point of `s` lies within the inclusive ranges. */
  predicate Within(s: set<Point>, minX: int, maxX: int, minY: int, maxY: int) {
    forall p :: p in s ==> minX <= p.x <= maxX && minY <= p.y <= maxY
  }

  lemma WithinInsert(s: set<Point>, q: Point, minX: int, maxX: int, minY: int, maxY: int)
    requires Within(s, minX, maxX, minY, maxY)
    ensures Within(s + {q}, Min(minX, q.x), Max(maxX, q.x), Min(minY, q.y), Max(maxY, q.y))
  {
  }

  /** The fill loop's invariant, apart from the push count: the pixels this
      call visited are marked and disjoint from the earlier ones, every
      marked neighbour of theirs is visited or pending, the start pixel is
      visited or pending if it needs to be, and the running extremes bound
      the visited pixels and the start and are each attained. */
  predicate FillInv(img: Image, visited: set<Point>, start: Point, visited': set<Point>,
                    filled: set<Point>, stack: seq<Point>,
                    minX: int, maxX: int, minY: int, maxY: int,
                    left: Point, right: Point, top: Point, bottom: Point)
    requires Valid(img)
  {
    && visited' == visited + filled && visited !! filled
    && (forall p :: p in filled ==> Lit(img, p))
    && AllHandled(img, visited', stack, filled)
    && (Lit(img, start) && start !in visited ==> start in filled || start in stack)
    && Within(filled + {start}, minX, maxX, minY, maxY)
    && left in filled + {start} && left.x == minX
    && right in filled + {start} && right.x == maxX
    && top in filled + {start} && top.y == minY
    && bottom in filled + {start} && bottom.y == maxY
  }

  /** Popping a visited or unmarked pixel keeps the invariant. */
  lemma SkipStep(img: Image, visited: set<Point>, start: Point, visited': set<Point>,
                 filled: set<Point>, rest: seq<Point>, q: Point,
                 minX: int, maxX: int, minY: int, maxY: int,
                 left: Point, right: Point, top: Point, bottom: Point)
    requires Valid(img) && (q in visited' || !Lit(img, q))
    requires FillInv(img, visited, start, visited', filled, rest + [q],
                     minX, maxX, minY, maxY, left, right, top, bottom)
    ensures FillInv(img, visited, start, visited', filled, rest,
                    minX, maxX, minY, maxY, left, right, top, bottom)
  {
    PopSkipped(img, visited', rest, q, filled);
    if Lit(img, start) && start !in visited && start !in filled {
      assert start in rest + [q];
      assert start != q;
      assert start in rest;
    }
  }

  /** Visiting a popped, unvisited, marked pixel keeps the invariant. */
  lemma VisitStep(img: Image, visited: set<Point>, start: Point, visited': set<Point>,
                  filled: set<Point>, rest: seq<Point>, q: Point,
                  minX: int, maxX: int, minY: int, maxY: int,
                  left: Point, right: Point, top: Point, bottom: Point)
    requires Valid(img) && q !in visited' && Lit(img, q)
    requires FillInv(img, visited, start, visited', filled, rest + [q],
                     minX, maxX, minY, maxY, left, right, top, bottom)
    ensures FillInv(img, visited, start, visited' + {q}, filled + {q}, rest + Neighbours(q),
                    Min(minX, q.x), Max(maxX, q.x), Min(minY, q.y), Max(maxY, q.y),
                    if q.x < minX then q else left, if q.x > maxX then q else right,
                    if q.y < minY then q else top, if q.y > maxY then q else bottom)
  {
    PopVisited(img, visited', rest, q, filled);
    WithinInsert(filled + {start}, q, minX, maxX, minY, maxY);
    assert filled + {start} + {q} == filled + {q} + {start};
    assert visited' + {q} == visited + (filled + {q});
    if Lit(img, start) && start !in visited && start !in filled + {q} {
      assert start in rest + [q];
      assert start in rest;
      assert (rest + Neighbours(q))[IndexOf(rest, start)] == start;
    }
  }

  /** `floodFill(startX, startY)` against the shared `visited` set. Returns
      the enlarged visited set, the box `{minX, minY, maxX-minX+1,
      maxY-minY+1}`, and the number of stack pushes; `filled` is the set of
      pixels this call visits. */
  /** The fill loop's invariant: the fill facts, the visiting order that
      witnesses connectivity, the pixels left to visit, and the push count. */
  ghost predicate FillLoop(img: Image, visited: set<Point>, start: Point, visited': set<Point>,
                           filled: set<Point>, stack: seq<Point>,
                           minX: int, maxX: int, minY: int, maxY: int,
                           left: Point, right: Point, top: Point, bottom: Point,
                           pushes: nat, from: seq<int>, order: seq<Point>, parent: seq<int>)
    requires Valid(img)
  {
    && FillInv(img, visited, start, visited', filled, stack, minX, maxX, minY, maxY, left, right, top, bottom)
    && ReachInv(start, filled, stack, from, order, parent)
    && visited' <= Cells(img)
    && pushes == 1 + 4 * |filled|
  }

  lemma SkipLoop(img: Image, visited: set<Point>, start: Point, visited': set<Point>,
                 filled: set<Point>, rest: seq<Point>, q: Point,
                 minX: int, maxX: int, minY: int, maxY: int,
                 left: Point, right: Point, top: Point, bottom: Point,
                 pushes: nat, from: seq<int>, order: seq<Point>, parent: seq<int>)
    requires Valid(img) && (q in visited' || !Lit(img, q))
    requires FillLoop(img, visited, start, visited', filled, rest + [q], minX, maxX, minY, maxY,
                      left, right, top, bottom, pushes, from, order, parent)
    ensures FillLoop(img, visited, start, visited', filled, rest, minX, maxX, minY, maxY,
                     left, right, top, bottom, pushes, from[..|rest|], order, parent)
  {
    SkipStep(img, visited, start, visited', filled, rest, q,
             minX, maxX, minY, maxY, left, right, top, bottom);
    ReachSkip(start, filled, rest, q, from, order, parent);
  }

  lemma VisitLoop(img: Image, visited: set<Point>, start: Point, visited': set<Point>,
                  filled: set<Point>, rest: seq<Point>, q: Point,
                  minX: int, maxX: int, minY: int, maxY: int,
                  left: Point, right: Point, top: Point, bottom: Point,
                  pushes: nat, from: seq<int>, order: seq<Point>, parent: seq<int>)
    requires Valid(img) && q !in visited' && Lit(img, q)
    requires FillLoop(img, visited, start, visited', filled, rest + [q], minX, maxX, minY, maxY,
                      left, right, top, bottom, pushes, from, order, parent)
    ensures FillLoop(img, visited, start, visited' + {q}, filled + {q}, rest + Neighbours(q),
                     Min(minX, q.x), Max(maxX, q.x), Min(minY, q.y), Max(maxY, q.y),
                     if q.x < minX then q else left, if q.x > maxX then q else right,
                     if q.y < minY then q else top, if q.y > maxY then q else bottom,
                     pushes + 4, from[..|rest|] + [|order|, |order|, |order|, |order|],
                     order + [q], parent + [from[|rest|]])
    ensures Cells(img) - (visited' + {q}) < Cells(img) - visited'
  {
    VisitStep(img, visited, start, visited', filled, rest, q,
              minX, maxX, minY, maxY, left, right, top, bottom);
    ReachVisit(start, filled, rest, q, from, order, parent);
    InBoundsIsCell(img, q);
    InsertFresh(Cells(img), visited', filled, q);
  }

  method FloodFill(img: Image, visited: set<Point>, start: Point)
    returns (visited': set<Point>, box: Region, pushes: nat, ghost filled: set<Point>)
    requires Valid(img)
    requires visited <= Cells(img) && Closed(img, visited)
    ensures visited' == visited + filled && visited !! filled
    ensures visited' <= Cells(img) && Closed(img, visited')
    ensures forall p :: p in filled ==> Lit(img, p)
    ensures start in filled <==> Lit(img, start) && start !in visited
    ensures Closed(img, filled) && Connected(filled, start)
    ensures BoundingBox(box, filled + {start})
    ensures pushes == 1 + 4 * |filled|
    ensures pushes <= |img.data| + 1
  {
    var stack := [start];
    var minX, maxX, minY, maxY := start.x, start.x, start.y, start.y;
    visited' := visited;
    filled := {};
    pushes := 1;
    ghost var left, right, top, bottom := start, start, start, start;
    ghost var from: seq<int>, order: seq<Point>, parent: seq<int> := [0], [], [];
    while |stack| > 0
      invariant FillLoop(img, visited, start, visited', filled, stack, minX, maxX, minY, maxY,
                         left, right, top, bottom, pushes, from, order, parent)
      decreases Cells(img) - visited', |stack|
    {
      var q := stack[|stack| - 1];
      var rest := stack[..|stack| - 1];
      SplitLast(stack);
      if q in visited' || !InBounds(img, q) || Alpha(img, q) == 0 {
        SkipLoop(img, visited, start, visited', filled, rest, q, minX, maxX, minY, maxY,
                 left, right, top, bottom, pushes, from, order, parent);
        stack, from := rest, from[..|rest|];
      } else {
        VisitLoop(img, visited, start, visited', filled, rest, q, minX, maxX, minY, maxY,
                  left, right, top, bottom, pushes, from, order, parent);
        ghost var n := |order|;
        order, parent, from := order + [q], parent + [from[|rest|]], from[..|rest|] + [n, n, n, n];
        visited' := visited' + {q};
        filled := filled + {q};
        left := if q.x < minX then q else left;
        right := if q.x > maxX then q else right;
        top := if q.y < minY then q else top;
        bottom := if q.y > maxY then q else bottom;
        minX, maxX, minY, maxY := Min(minX, q.x), Max(maxX, q.x), Min(minY, q.y), Max(maxY, q.y);
        stack := rest + Neighbours(q);
        pushes := pushes + 4;
      }
    }
    box := Region(minX, minY, maxX - minX + 1, maxY - minY + 1);
    FillDone(img, visited, start, visited', filled, minX, maxX, minY, maxY, left, right, top, bottom);
    ReachDone(start, filled, from, order, parent);
    CellsCard(img.width, img.height);
    ValidSize(img);
    SubsetCard(filled, Cells(img));
  }

  /** What the fill guarantees once its stack is empty. */
  lemma FillDone(img: Image, visited: set<Point>, start: Point, visited': set<Point>,
                 filled: set<Point>, minX: int, maxX: int, minY: int, maxY: int,
                 left: Point, right: Point, top: Point, bottom: Point)
    requires Valid(img) && Closed(img, visited)
    requires FillInv(img, visited, start, visited', filled, [],
                     minX, maxX, minY, maxY, left, right, top, bottom)
    ensures Closed(img, visited') && Closed(img, filled)
    ensures start in filled <==> Lit(img, start) && start !in visited
    ensures BoundingBox(Region(minX, minY, maxX - minX + 1, maxY - minY + 1), filled + {start})
  {
    assert AllHandled(img, visited', [], filled);
    ClosedAfterFill(img, visited, filled);
  }

  /** Visiting a fresh cell grows the fill by one and shrinks what is left
      to visit. */
  lemma InsertFresh(cells: set<Point>, vis: set<Point>, filled: set<Point>, q: Point)
    requires q in cells && q !in vis && filled <= vis
    ensures |filled + {q}| == |filled| + 1
    ensures cells - (vis + {q}) < cells - vis
  {
    assert q !in filled;
    assert q in cells - vis;
  }

  lemma SubsetCard(a: set<Point>, b: set<Point>)
    requires a <= b
    ensures |a| <= |b|
  {
    assert b == a + (b - a);
  }

  /** Once the stack is empty, the new visited set is closed, and so is the
      fill on its own: a marked neighbour of a filled pixel that was visited
      earlier would have pulled the filled pixel into the earlier fill. */
  lemma ClosedAfterFill(img: Image, visited: set<Point>, filled: set<Point>)
    requires Valid(img) && Closed(img, visited) && visited !! filled
    requires forall p :: p in filled ==> Lit(img, p)
    requires forall p :: p in filled ==> NeighboursHandled(img, visited + filled, [], p)
    ensures Closed(img, visited + filled)
    ensures Closed(img, filled)
  {
    UnionClosed(img, visited, filled);
    FillClosed(img, visited, filled);
  }

  lemma UnionClosed(img: Image, visited: set<Point>, filled: set<Point>)
    requires Valid(img) && Closed(img, visited)
    requires forall p :: p in filled ==> NeighboursHandled(img, visited + filled, [], p)
    ensures Closed(img, visited + filled)
  {
    var all := visited + filled;
    forall p | p in all
      ensures NeighboursHandled(img, all, [], p)
    {
      if p in visited {
        assert NeighboursHandled(img, visited, [], p);
      }
    }
  }

  lemma FillClosed(img: Image, visited: set<Point>, filled: set<Point>)
    requires Valid(img) && Closed(img, visited) && visited !! filled
    requires forall p :: p in filled ==> Lit(img, p)
    requires forall p :: p in filled ==> NeighboursHandled(img, visited + filled, [], p)
    ensures Closed(img, filled)
  {
    forall p | p in filled
      ensures NeighboursHandled(img, filled, [], p)
    {
      NoEarlierNeighbour(img, visited, filled, p);
      assert NeighboursHandled(img, visited + filled, [], p);
    }
  }

  /** A filled pixel has no marked neighbour in an earlier closed fill. */
  lemma NoEarlierNeighbour(img: Image, visited: set<Point>, filled: set<Point>, p: Point)
    requires Valid(img) && Closed(img, visited) && visited !! filled
    requires p in filled && Lit(img, p)
    ensures forall q :: q in Neighbours(p) && Lit(img, q) ==> q !in visited
  {
    forall q | q in Neighbours(p) && Lit(img, q)
      ensures q !in visited
    {
      if q in visited {
        assert p in Neighbours(q);
        ClosedReachesBack(img, visited, p, q);
        assert false;
      }
    }
  }

  /** A seed of the region scan: both coordinates are multiples of the
      stride 5. */
  predicate IsSeed(p: Point) {
    p.x >= 0 && p.y >= 0 && p.x % 5 == 0 && p.y % 5 == 0
  }

  /** The scan reaches seed `p` before position (`x`, `y`): rows above, or
      earlier in the same row. */
  predicate ScannedBefore(p: Point, x: int, y: int) {
    p.y < y || (p.y == y && p.x < x)
  }

  /** Every marked seed the scan has passed has been swept into `visited`. */
  ghost predicate SeedsCovered(img: Image, visited: set<Point>, x: int, y: int)
    requires Valid(img)
  {
    forall p :: IsSeed(p) && ScannedBefore(p, x, y) && Lit(img, p) ==> p in visited
  }

  /** A region is kept when both sides exceed 5 pixels. */
  predicate Large(r: Region) {
    r.width > 5 && r.height > 5
  }

  /** The positions of the large boxes, in increasing order: every large
      box's position appears exactly once and no other does. */
  function LargeIndices(boxes: seq<Region>): (m: seq<nat>)
    ensures forall i :: 0 <= i < |m| ==> m[i] < |boxes| && Large(boxes[m[i]])
    ensures forall i, j :: 0 <= i < j < |m| ==> m[i] < m[j]
    ensures forall k :: 0 <= k < |boxes| && Large(boxes[k]) ==> k in m
  {
    if |boxes| == 0 then []
    else
      var init := boxes[..|boxes| - 1];
      var m := LargeIndices(init);
      assert forall i :: 0 <= i < |m| ==> boxes[m[i]] == init[m[i]];
      m + (if Large(boxes[|boxes| - 1]) then [|boxes| - 1] else [])
  }

  /** The boxes that pass the size filter, in scan order: the large boxes
      picked out by their increasing positions. */
  function Kept(boxes: seq<Region>): (r: seq<Region>)
    ensures |r| == |LargeIndices(boxes)| <= |boxes|
    ensures forall i :: 0 <= i < |r| ==> r[i] == boxes[LargeIndices(boxes)[i]]
    ensures forall i :: 0 <= i < |r| ==> Large(r[i]) && r[i] in boxes
    ensures forall i :: 0 <= i < |boxes| && Large(boxes[i]) ==> boxes[i] in r
  {
    if |boxes| == 0 then []
    else
      var init := boxes[..|boxes| - 1];
      var last := boxes[|boxes| - 1];
      assert boxes == init + [last];
      Kept(init) + (if Large(last) then [last] else [])
  }

  /** The pixels of all fills together. */
  function UnionOf(ss: seq<set<Point>>): set<Point> {
    if |ss| == 0 then {} else UnionOf(ss[..|ss| - 1]) + ss[|ss| - 1]
  }

  lemma UnionAppend(ss: seq<set<Point>>, f: set<Point>)
    ensures UnionOf(ss + [f]) == UnionOf(ss) + f
  {
    assert (ss + [f])[..|ss|] == ss;
  }

  /** `findDiffRegions`: scan the seeds row by row, flood-fill from each
      marked seed not yet visited, and keep the boxes larger than 5 by 5.
      `boxes` and `fills` record every fill, kept or not. */
  method FindDiffRegions(img: Image)
    returns (regions: seq<Region>, ghost boxes: seq<Region>, ghost fills: seq<set<Point>>,
             ghost seeds: seq<Point>)
    requires Valid(img)
    ensures SeedOrder(fills, seeds)
    ensures forall i :: 0 <= i < |regions| ==> Large(regions[i]) && InsideImage(img, regions[i])
    ensures |boxes| == |fills| && regions == Kept(boxes)
    ensures forall i :: 0 <= i < |fills| ==> FillFacts(img, boxes[i], fills[i])
    ensures forall i, j :: 0 <= i < j < |fills| ==> fills[i] !! fills[j]
    ensures forall p :: IsSeed(p) && Lit(img, p) ==> p in UnionOf(fills)
    ensures Closed(img, UnionOf(fills))
  {
    regions, boxes, fills, seeds := [], [], [], [];
    var visited: set<Point> := {};
    var y := 0;
    ghost var row := 0;
    while y < img.height
      invariant y == 5 * row
      invariant ScanInv(img, regions, boxes, fills, visited)
      invariant SeedsCovered(img, visited, 0, y)
      invariant SeedOrder(fills, seeds) && SeedsBefore(seeds, 0, y)
    {
      var x := 0;
      ghost var col := 0;
      while x < img.width
        invariant x == 5 * col && y == 5 * row
        invariant ScanInv(img, regions, boxes, fills, visited)
        invariant SeedsCovered(img, visited, x, y)
        invariant SeedOrder(fills, seeds) && SeedsBefore(seeds, x, y)
      {
        var seed := Point(x, y);
        if seed !in visited && Alpha(img, seed) > 0 {
          var visited', box, _, filled := FloodFill(img, visited, seed);
          SeedAt(col, row);
          ScanAdd(img, regions, boxes, fills, visited, seed, box, filled);
          SeedOrderAdd(img, fills, seeds, visited, filled, x, y);
          SeedsGrow(img, visited, filled, x, y);
          regions := regions + (if Large(box) then [box] else []);
          boxes, fills, seeds := boxes + [box], fills + [filled], seeds + [seed];
          visited := visited';
        } else {
          SeedsBeforeMove(seeds, x, y, x + 5, y);
        }
        SeedsStep(img, visited, col, y);
        x, col := x + 5, col + 1;
      }
      SeedsRow(img, visited, x, row);
      SeedsBeforeMove(seeds, x, y, 0, y + 5);
      y, row := y + 5, row + 1;
    }
    SeedsDone(img, visited, y);
    forall i | 0 <= i < |regions|
      ensures InsideImage(img, regions[i])
    {
      var j :| 0 <= j < |boxes| && boxes[j] == regions[i];
      BoxInside(img, boxes[j], fills[j]);
    }
  }

  /** The fills in the order the scan met their seeds: each fill holds its
      seed and is connected from it, holds no seed the scan passed earlier,
      and the seeds come in strict scan order. */
  ghost predicate SeedOrder(fills: seq<set<Point>>, seeds: seq<Point>) {
    && |seeds| == |fills|
    && (forall i :: 0 <= i < |seeds| ==>
          IsSeed(seeds[i]) && seeds[i] in fills[i] && Connected(fills[i], seeds[i]))
    && (forall i, j :: 0 <= i < j < |seeds| ==> ScannedBefore(seeds[i], seeds[j].x, seeds[j].y))
    && (forall i, p :: 0 <= i < |seeds| && IsSeed(p) && p in fills[i] ==> !ScannedBefore(p, seeds[i].x, seeds[i].y))
  }

  /** Every recorded seed lies before scan position (`x`, `y`). */
  predicate SeedsBefore(seeds: seq<Point>, x: int, y: int) {
    forall i :: 0 <= i < |seeds| ==> ScannedBefore(seeds[i], x, y)
  }

  /** Moving the scan position forward keeps the seeds behind it. */
  lemma SeedsBeforeMove(seeds: seq<Point>, x: int, y: int, x': int, y': int)
    requires SeedsBefore(seeds, x, y)
    requires y < y' || (y == y' && x <= x')
    ensures SeedsBefore(seeds, x', y')
  {
  }

  /** Recording the fill of the seed at (`x`, `y`) keeps the seed order: an
      earlier seed inside the new fill would already have been visited. */
  lemma SeedOrderAdd(img: Image, fills: seq<set<Point>>, seeds: seq<Point>, visited: set<Point>,
                     filled: set<Point>, x: int, y: int)
    requires Valid(img) && SeedOrder(fills, seeds) && SeedsBefore(seeds, x, y)
    requires SeedsCovered(img, visited, x, y)
    requires IsSeed(Point(x, y)) && Point(x, y) in filled && Connected(filled, Point(x, y))
    requires visited !! filled && forall p :: p in filled ==> Lit(img, p)
    ensures SeedOrder(fills + [filled], seeds + [Point(x, y)])
    ensures SeedsBefore(seeds + [Point(x, y)], x + 5, y)
  {
    var fills', seeds' := fills + [filled], seeds + [Point(x, y)];
    forall i | 0 <= i < |seeds'|
      ensures IsSeed(seeds'[i]) && seeds'[i] in fills'[i] && Connected(fills'[i], seeds'[i])
      ensures ScannedBefore(seeds'[i], x + 5, y)
    {
      if i < |seeds| {
        assert seeds'[i] == seeds[i] && fills'[i] == fills[i];
      }
    }
    forall i, j | 0 <= i < j < |seeds'|
      ensures ScannedBefore(seeds'[i], seeds'[j].x, seeds'[j].y)
    {
      assert seeds'[i] == seeds[i];
      if j < |seeds| {
        assert seeds'[j] == seeds[j];
      }
    }
    forall i, p | 0 <= i < |seeds'| && IsSeed(p) && p in fills'[i]
      ensures !ScannedBefore(p, seeds'[i].x, seeds'[i].y)
    {
      if i < |seeds| {
        assert seeds'[i] == seeds[i] && fills'[i] == fills[i];
      } else {
        assert p in filled && Lit(img, p) && p !in visited;
      }
    }
  }

  /** The box lies within the raster. */
  predicate InsideImage(img: Image, r: Region) {
    0 <= r.x && 0 <= r.y && r.x + r.width <= img.width && r.y + r.height <= img.height
  }

  /** The bounding box of marked pixels lies within the raster: its edges
      are touched by in-bounds pixels. */
  lemma BoxInside(img: Image, box: Region, fill: set<Point>)
    requires Valid(img) && BoundingBox(box, fill)
    requires forall p :: p in fill ==> Lit(img, p)
    ensures InsideImage(img, box)
  {
    var l :| l in fill && l.x == box.x;
    var r :| r in fill && r.x == box.x + box.width - 1;
    var t :| t in fill && t.y == box.y;
    var b :| b in fill && b.y == box.y + box.height - 1;
    assert Lit(img, l) && Lit(img, r) && Lit(img, t) && Lit(img, b);
  }

  /** The scan's invariant: the kept regions are the large recorded boxes,
      the visited set is exactly the union of the recorded fills, stays a
      closed set of raster positions, and the fills are pairwise disjoint. */
  ghost predicate ScanInv(img: Image, regions: seq<Region>, boxes: seq<Region>,
                          fills: seq<set<Point>>, visited: set<Point>)
    requires Valid(img)
  {
    && |boxes| == |fills| && regions == Kept(boxes)
    && visited == UnionOf(fills) && visited <= Cells(img) && Closed(img, visited)
    && (forall i :: 0 <= i < |fills| ==> FillFacts(img, boxes[i], fills[i]))
    && (forall i :: 0 <= i < |fills| ==> fills[i] <= visited)
    && (forall i, j :: 0 <= i < j < |fills| ==> fills[i] !! fills[j])
  }

  /** Recording a fresh fill from a marked, unvisited seed keeps the
      invariant. */
  lemma ScanAdd(img: Image, regions: seq<Region>, boxes: seq<Region>,
                fills: seq<set<Point>>, visited: set<Point>, seed: Point,
                box: Region, filled: set<Point>)
    requires Valid(img) && ScanInv(img, regions, boxes, fills, visited)
    requires IsSeed(seed) && seed in filled
    requires visited !! filled && visited + filled <= Cells(img) && Closed(img, visited + filled)
    requires forall p :: p in filled ==> Lit(img, p)
    requires Closed(img, filled) && Connected(filled, seed) && BoundingBox(box, filled + {seed})
    ensures ScanInv(img, regions + (if Large(box) then [box] else []), boxes + [box],
                    fills + [filled], visited + filled)
  {
    InsertPresent(filled, seed);
    assert FillFacts(img, box, filled);
    FactsAppend(img, boxes, fills, box, filled);
    AddFill(img, visited, boxes, fills, box, filled);
    UnionAppend(fills, filled);
    KeptAppend(boxes, box);
  }

  /** What the scan records about one fill: a nonempty set of marked pixels,
      closed under marked 4-neighbours and connected from a seed it holds,
      so exactly one connected component of the mask, and its box. */
  ghost predicate FillFacts(img: Image, box: Region, fill: set<Point>)
    requires Valid(img)
  {
    && fill != {}
    && (forall p :: p in fill ==> Lit(img, p))
    && Closed(img, fill)
    && BoundingBox(box, fill)
    && (exists p :: p in fill && IsSeed(p) && Connected(fill, p))
  }

  lemma InsertPresent(s: set<Point>, x: Point)
    requires x in s
    ensures s + {x} == s
  {
  }

  lemma FactsAppend(img: Image, boxes: seq<Region>, fills: seq<set<Point>>, box: Region, filled: set<Point>)
    requires Valid(img) && |boxes| == |fills| && FillFacts(img, box, filled)
    requires forall i :: 0 <= i < |fills| ==> FillFacts(img, boxes[i], fills[i])
    ensures forall i :: 0 <= i < |fills| + 1 ==> FillFacts(img, (boxes + [box])[i], (fills + [filled])[i])
  {
    forall i | 0 <= i < |fills| + 1
      ensures FillFacts(img, (boxes + [box])[i], (fills + [filled])[i])
    {
      if i < |fills| {
        assert (boxes + [box])[i] == boxes[i] && (fills + [filled])[i] == fills[i];
      }
    }
  }

  lemma AddFill(img: Image, visited: set<Point>, boxes: seq<Region>, fills: seq<set<Point>>,
                box: Region, filled: set<Point>)
    requires Valid(img) && |boxes| == |fills|
    requires forall i :: 0 <= i < |fills| ==> fills[i] <= visited
    requires forall i, j :: 0 <= i < j < |fills| ==> fills[i] !! fills[j]
    requires visited !! filled
    ensures forall i :: 0 <= i < |fills| + 1 ==> (fills + [filled])[i] <= visited + filled
    ensures forall i, j :: 0 <= i < j < |fills| + 1 ==> (fills + [filled])[i] !! (fills + [filled])[j]
  {
  }

  lemma KeptAppend(boxes: seq<Region>, box: Region)
    ensures Kept(boxes + [box]) == Kept(boxes) + (if Large(box) then [box] else [])
  {
    assert (boxes + [box])[..|boxes|] == boxes;
  }

  lemma SeedsGrow(img: Image, visited: set<Point>, filled: set<Point>, x: int, y: int)
    requires Valid(img) && SeedsCovered(img, visited, x, y)
    requires Point(x, y) in filled
    ensures SeedsCovered(img, visited + filled, x + 1, y)
  {
  }

  lemma SeedAt(col: nat, row: nat)
    ensures IsSeed(Point(5 * col, 5 * row))
  {
  }

  /** No seed lies strictly between two consecutive multiples of 5. */
  lemma NoSeedBetween(k: nat, v: int)
    requires v % 5 == 0 && 5 * k <= v < 5 * k + 5
    ensures v == 5 * k
  {
    var d := v - 5 * k;
    assert d % 5 == 0;
  }

  lemma SeedsStep(img: Image, visited: set<Point>, col: nat, y: int)
    requires Valid(img) && SeedsCovered(img, visited, 5 * col, y)
    requires Lit(img, Point(5 * col, y)) ==> Point(5 * col, y) in visited
    ensures SeedsCovered(img, visited, 5 * col + 5, y)
  {
    forall p | IsSeed(p) && ScannedBefore(p, 5 * col + 5, y) && Lit(img, p)
      ensures p in visited
    {
      if p.y == y && p.x >= 5 * col {
        NoSeedBetween(col, p.x);
      }
    }
  }

  lemma SeedsRow(img: Image, visited: set<Point>, x: int, row: nat)
    requires Valid(img) && SeedsCovered(img, visited, x, 5 * row) && x >= img.width
    ensures SeedsCovered(img, visited, 0, 5 * row + 5)
  {
    forall p | IsSeed(p) && ScannedBefore(p, 0, 5 * row + 5) && Lit(img, p)
      ensures p in visited
    {
      if p.y >= 5 * row {
        NoSeedBetween(row, p.y);
      }
    }
  }

  lemma SeedsDone(img: Image, visited: set<Point>, y: int)
    requires Valid(img) && SeedsCovered(img, visited, 0, y) && y >= img.height
    ensures forall p :: IsSeed(p) && Lit(img, p) ==> p in visited
  {
  }
}
