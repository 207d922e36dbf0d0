/** Square bounding boxes of ray intersections and their padding
    (src/data/layout.ts, `dataBox`, `minimalDataBox`, `forceSquareBox`, `padBox`). */
module GeometryBox {
  import opened Types
  import opened Numbers

  /** The rectangle [minX, maxX] x [minY, maxY] lies in `box`. */
  predicate ContainsRect(box: BoundingBox, minX: real, minY: real, maxX: real, maxY: real) {
    box.minX <= minX && maxX <= box.MaxX() && box.minY <= minY && maxY <= box.MaxY()
  }

  /** The square with the rectangle's centre whose side is the rectangle's longer side. */
  function ForceSquareBox(minX: real, minY: real, maxX: real, maxY: real): (box: BoundingBox)
    ensures box.IsSquare()
    ensures box.width == maxX - minX || box.width == maxY - minY
    ensures box.width >= maxX - minX && box.width >= maxY - minY
    ensures box.minX + box.width / 2.0 == (minX + maxX) / 2.0
    ensures box.minY + box.height / 2.0 == (minY + maxY) / 2.0
    ensures ContainsRect(box, minX, minY, maxX, maxY)
  {
    var centerX := (minX + maxX) / 2.0;
    var centerY := (minY + maxY) / 2.0;
    var halfSize := Max([maxX - minX, maxY - minY]) / 2.0;
    BoundingBox(centerX - halfSize, centerY - halfSize, 2.0 * halfSize, 2.0 * halfSize)
  }

  /** No square box that holds the rectangle is smaller than `ForceSquareBox`'s. */
  lemma ForceSquareBoxIsSmallest(minX: real, minY: real, maxX: real, maxY: real, other: BoundingBox)
    requires other.IsSquare() && ContainsRect(other, minX, minY, maxX, maxY)
    ensures ForceSquareBox(minX, minY, maxX, maxY).width <= other.width
  {
  }

  /** Squaring the corners of a square box gives the same box back. */
  lemma ForceSquareBoxOfSquare(box: BoundingBox)
    requires box.IsSquare() && box.width >= 0.0
    ensures ForceSquareBox(box.minX, box.minY, box.MaxX(), box.MaxY()) == box
  {
  }

  /** Every bundle of a result that `dataBox` can measure has at least one x and one y. */
  predicate HasIntersections(result: RayTraceResult) {
    |result.rayBundle.x| > 0 && |result.rayBundle.y| > 0
  }

  /** The smallest square box holding every intersection of the ray bundle. */
  function DataBox(result: RayTraceResult): (box: BoundingBox)
    requires HasIntersections(result)
    ensures box.IsSquare() && box.width >= 0.0
    ensures forall i :: 0 <= i < |result.rayBundle.x| ==>
      box.minX <= result.rayBundle.x[i] <= box.MaxX()
    ensures forall i :: 0 <= i < |result.rayBundle.y| ==>
      box.minY <= result.rayBundle.y[i] <= box.MaxY()
  {
    var x := result.rayBundle.x;
    var y := result.rayBundle.y;
    var minX := Min(x);
    var minY := Min(y);
    var maxX := Max(x);
    var maxY := Max(y);
    ForceSquareBox(minX, minY, maxX, maxY)
  }

  /** A square box that holds every intersection is at least as large as `DataBox`'s. */
  lemma DataBoxIsSmallest(result: RayTraceResult, other: BoundingBox)
    requires HasIntersections(result) && other.IsSquare()
    requires forall i :: 0 <= i < |result.rayBundle.x| ==>
      other.minX <= result.rayBundle.x[i] <= other.MaxX()
    requires forall i :: 0 <= i < |result.rayBundle.y| ==>
      other.minY <= result.rayBundle.y[i] <= other.MaxY()
    ensures DataBox(result).width <= other.width
  {
    var x := result.rayBundle.x;
    var y := result.rayBundle.y;
    var ix :| 0 <= ix < |x| && x[ix] == Min(x);
    var jx :| 0 <= jx < |x| && x[jx] == Max(x);
    var iy :| 0 <= iy < |y| && y[iy] == Min(y);
    var jy :| 0 <= jy < |y| && y[jy] == Max(y);
    ForceSquareBoxIsSmallest(Min(x), Min(y), Max(x), Max(y), other);
  }

  /** The chief ray plays no part in the data box. */
  lemma DataBoxIgnoresChiefRay(result: RayTraceResult, chiefRay: RayIntersections)
    requires HasIntersections(result)
    ensures DataBox(result.(chiefRay := chiefRay)) == DataBox(result)
  {
  }

  /** `DataBox` squares the extremes of the two coordinate arrays. */
  lemma DataBoxOfExtremes(result: RayTraceResult)
    requires HasIntersections(result)
    ensures DataBox(result) == ForceSquareBox(
      Min(result.rayBundle.x), Min(result.rayBundle.y), Max(result.rayBundle.x), Max(result.rayBundle.y))
  {
  }

  /** The data boxes of the results, in order. */
  function DataBoxes(results: seq<RayTraceResult>): (boxes: seq<BoundingBox>)
    requires forall i :: 0 <= i < |results| ==> HasIntersections(results[i])
    ensures |boxes| == |results|
    ensures forall i :: 0 <= i < |results| ==> boxes[i] == DataBox(results[i])
  {
    seq(|results|, i requires 0 <= i < |results| => DataBox(results[i]))
  }

  /** The left edges of the boxes, in order. */
  function Lefts(boxes: seq<BoundingBox>): (r: seq<real>)
    ensures |r| == |boxes| && forall i :: 0 <= i < |boxes| ==> r[i] == boxes[i].minX
  {
    seq(|boxes|, i requires 0 <= i < |boxes| => boxes[i].minX)
  }

  /** The bottom edges of the boxes, in order. */
  function Bottoms(boxes: seq<BoundingBox>): (r: seq<real>)
    ensures |r| == |boxes| && forall i :: 0 <= i < |boxes| ==> r[i] == boxes[i].minY
  {
    seq(|boxes|, i requires 0 <= i < |boxes| => boxes[i].minY)
  }

  /** The right edges of the boxes, in order. */
  function Rights(boxes: seq<BoundingBox>): (r: seq<real>)
    ensures |r| == |boxes| && forall i :: 0 <= i < |boxes| ==> r[i] == boxes[i].MaxX()
  {
    seq(|boxes|, i requires 0 <= i < |boxes| => boxes[i].minX + boxes[i].width)
  }

  /** The top edges of the boxes, in order. */
  function Tops(boxes: seq<BoundingBox>): (r: seq<real>)
    ensures |r| == |boxes| && forall i :: 0 <= i < |boxes| ==> r[i] == boxes[i].MaxY()
  {
    seq(|boxes|, i requires 0 <= i < |boxes| => boxes[i].minY + boxes[i].height)
  }

  /** The smallest square box holding the data box of every result. */
  function MinimalDataBox(results: seq<RayTraceResult>): (box: BoundingBox)
    requires |results| > 0
    requires forall i :: 0 <= i < |results| ==> HasIntersections(results[i])
    ensures box.IsSquare()
    ensures forall i :: 0 <= i < |results| ==> box.ContainsBox(DataBox(results[i]))
  {
    var boxes := DataBoxes(results);
    var minX := Min(Lefts(boxes));
    var minY := Min(Bottoms(boxes));
    var maxX := Max(Rights(boxes));
    var maxY := Max(Tops(boxes));
    var box := ForceSquareBox(minX, minY, maxX, maxY);
    assert forall i :: 0 <= i < |results| ==> box.ContainsBox(boxes[i]) by {
      forall i | 0 <= i < |results| ensures box.ContainsBox(boxes[i]) {
        assert Lefts(boxes)[i] == boxes[i].minX && Bottoms(boxes)[i] == boxes[i].minY;
        assert Rights(boxes)[i] == boxes[i].MaxX() && Tops(boxes)[i] == boxes[i].MaxY();
      }
    }
    box
  }

  /** Every ray intersection of every result lies in the minimal data box. */
  lemma MinimalDataBoxHoldsEveryPoint(results: seq<RayTraceResult>, i: int)
    requires |results| > 0
    requires forall k :: 0 <= k < |results| ==> HasIntersections(results[k])
    requires 0 <= i < |results|
    ensures forall j :: 0 <= j < |results[i].rayBundle.x| ==>
      MinimalDataBox(results).minX <= results[i].rayBundle.x[j] <= MinimalDataBox(results).MaxX()
    ensures forall j :: 0 <= j < |results[i].rayBundle.y| ==>
      MinimalDataBox(results).minY <= results[i].rayBundle.y[j] <= MinimalDataBox(results).MaxY()
  {
    assert MinimalDataBox(results).ContainsBox(DataBox(results[i]));
  }

  /** For one result the minimal data box is that result's data box. */
  lemma MinimalDataBoxOfOne(result: RayTraceResult)
    requires HasIntersections(result)
    ensures MinimalDataBox([result]) == DataBox(result)
  {
    var box := DataBox(result);
    var boxes := DataBoxes([result]);
    assert Lefts(boxes) == [box.minX] && Bottoms(boxes) == [box.minY];
    assert Rights(boxes) == [box.MaxX()] && Tops(boxes) == [box.MaxY()];
    ForceSquareBoxOfSquare(box);
  }

  /** No square box that holds every box of `boxes` is smaller than the square over their union. */
  lemma UnionSquareIsSmallest(boxes: seq<BoundingBox>, other: BoundingBox)
    requires |boxes| > 0 && other.IsSquare()
    requires forall i :: 0 <= i < |boxes| ==> other.ContainsBox(boxes[i])
    ensures ForceSquareBox(Min(Lefts(boxes)), Min(Bottoms(boxes)), Max(Rights(boxes)), Max(Tops(boxes))).width
            <= other.width
  {
    var l, b, r, t := Lefts(boxes), Bottoms(boxes), Rights(boxes), Tops(boxes);
    var il :| 0 <= il < |l| && l[il] == Min(l);
    var ib :| 0 <= ib < |b| && b[ib] == Min(b);
    var ir :| 0 <= ir < |r| && r[ir] == Max(r);
    var it :| 0 <= it < |t| && t[it] == Max(t);
    assert other.ContainsBox(boxes[il]) && other.ContainsBox(boxes[ib]);
    assert other.ContainsBox(boxes[ir]) && other.ContainsBox(boxes[it]);
    ForceSquareBoxIsSmallest(Min(l), Min(b), Max(r), Max(t), other);
  }

  /** No square box that holds the data box of every result is smaller than `MinimalDataBox`. */
  lemma MinimalDataBoxIsSmallest(results: seq<RayTraceResult>, other: BoundingBox)
    requires |results| > 0
    requires forall i :: 0 <= i < |results| ==> HasIntersections(results[i])
    requires other.IsSquare()
    requires forall i :: 0 <= i < |results| ==> other.ContainsBox(DataBox(results[i]))
    ensures MinimalDataBox(results).width <= other.width
  {
    var boxes := DataBoxes(results);
    assert forall i :: 0 <= i < |boxes| ==> other.ContainsBox(boxes[i]);
    UnionSquareIsSmallest(boxes, other);
    MinimalDataBoxOfBoxes(results, boxes);
  }

  /** The minimal data box reaches from the left edge of one data box to the right edge of another. */
  lemma MinimalDataBoxSpans(results: seq<RayTraceResult>, i: int, j: int)
    requires |results| > 0
    requires forall k :: 0 <= k < |results| ==> HasIntersections(results[k])
    requires 0 <= i < |results| && 0 <= j < |results|
    ensures MinimalDataBox(results).width >= DataBox(results[j]).MaxX() - DataBox(results[i]).minX
  {
    var box := MinimalDataBox(results);
    assert box.ContainsBox(DataBox(results[i])) && box.ContainsBox(DataBox(results[j]));
  }

  /** Every x and every y of every result's bundle lies in `box`. */
  predicate HoldsEveryIntersection(box: BoundingBox, results: seq<RayTraceResult>) {
    (forall i, j :: 0 <= i < |results| && 0 <= j < |results[i].rayBundle.x| ==>
      box.minX <= results[i].rayBundle.x[j] <= box.MaxX()) &&
    (forall i, j :: 0 <= i < |results| && 0 <= j < |results[i].rayBundle.y| ==>
      box.minY <= results[i].rayBundle.y[j] <= box.MaxY())
  }

  /** The lowest x of each result's bundle, in order. */
  function LowestXs(results: seq<RayTraceResult>): (r: seq<real>)
    requires forall i :: 0 <= i < |results| ==> HasIntersections(results[i])
    ensures |r| == |results|
    ensures forall i :: 0 <= i < |results| ==> r[i] in results[i].rayBundle.x
    ensures forall i, j :: 0 <= i < |results| && 0 <= j < |results[i].rayBundle.x| ==> r[i] <= results[i].rayBundle.x[j]
  {
    seq(|results|, i requires 0 <= i < |results| =>
      assert HasIntersections(results[i]); Min(results[i].rayBundle.x))
  }

  /** The lowest y of each result's bundle, in order. */
  function LowestYs(results: seq<RayTraceResult>): (r: seq<real>)
    requires forall i :: 0 <= i < |results| ==> HasIntersections(results[i])
    ensures |r| == |results|
    ensures forall i :: 0 <= i < |results| ==> r[i] in results[i].rayBundle.y
    ensures forall i, j :: 0 <= i < |results| && 0 <= j < |results[i].rayBundle.y| ==> r[i] <= results[i].rayBundle.y[j]
  {
    seq(|results|, i requires 0 <= i < |results| =>
      assert HasIntersections(results[i]); Min(results[i].rayBundle.y))
  }

  /** The highest x of each result's bundle, in order. */
  function HighestXs(results: seq<RayTraceResult>): (r: seq<real>)
    requires forall i :: 0 <= i < |results| ==> HasIntersections(results[i])
    ensures |r| == |results|
    ensures forall i :: 0 <= i < |results| ==> r[i] in results[i].rayBundle.x
    ensures forall i, j :: 0 <= i < |results| && 0 <= j < |results[i].rayBundle.x| ==> results[i].rayBundle.x[j] <= r[i]
  {
    seq(|results|, i requires 0 <= i < |results| =>
      assert HasIntersections(results[i]); Max(results[i].rayBundle.x))
  }

  /** The highest y of each result's bundle, in order. */
  function HighestYs(results: seq<RayTraceResult>): (r: seq<real>)
    requires forall i :: 0 <= i < |results| ==> HasIntersections(results[i])
    ensures |r| == |results|
    ensures forall i :: 0 <= i < |results| ==> r[i] in results[i].rayBundle.y
    ensures forall i, j :: 0 <= i < |results| && 0 <= j < |results[i].rayBundle.y| ==> results[i].rayBundle.y[j] <= r[i]
  {
    seq(|results|, i requires 0 <= i < |results| =>
      assert HasIntersections(results[i]); Max(results[i].rayBundle.y))
  }

  /** The square over the extremes of all bundles taken together: the box the doc
      comment of `minimalDataBox` describes, which squares once instead of squaring
      each bundle first. */
  function TightDataBox(results: seq<RayTraceResult>): (box: BoundingBox)
    requires |results| > 0
    requires forall i :: 0 <= i < |results| ==> HasIntersections(results[i])
    ensures box.IsSquare() && box.width >= 0.0
    ensures HoldsEveryIntersection(box, results)
  {
    var lx, ly, hx, hy := LowestXs(results), LowestYs(results), HighestXs(results), HighestYs(results);
    var box := ForceSquareBox(Min(lx), Min(ly), Max(hx), Max(hy));
    assert box.width >= 0.0 by {
      assert Min(lx) <= lx[0] <= hx[0] <= Max(hx);
    }
    box
  }

  /** `TightDataBox` squares the extremes of the per-bundle extremes. */
  lemma TightDataBoxOfExtremes(results: seq<RayTraceResult>)
    requires |results| > 0
    requires forall i :: 0 <= i < |results| ==> HasIntersections(results[i])
    ensures TightDataBox(results) == ForceSquareBox(
      Min(LowestXs(results)), Min(LowestYs(results)), Max(HighestXs(results)), Max(HighestYs(results)))
  {
  }

  /** No square box that holds every intersection is smaller than `TightDataBox`. */
  lemma TightDataBoxIsSmallest(results: seq<RayTraceResult>, other: BoundingBox)
    requires |results| > 0
    requires forall i :: 0 <= i < |results| ==> HasIntersections(results[i])
    requires other.IsSquare() && HoldsEveryIntersection(other, results)
    ensures TightDataBox(results).width <= other.width
  {
    var lx, ly, hx, hy := LowestXs(results), LowestYs(results), HighestXs(results), HighestYs(results);
    var a :| 0 <= a < |lx| && lx[a] == Min(lx);
    var b :| 0 <= b < |ly| && ly[b] == Min(ly);
    var c :| 0 <= c < |hx| && hx[c] == Max(hx);
    var d :| 0 <= d < |hy| && hy[d] == Max(hy);
    var ja :| 0 <= ja < |results[a].rayBundle.x| && results[a].rayBundle.x[ja] == lx[a];
    var jb :| 0 <= jb < |results[b].rayBundle.y| && results[b].rayBundle.y[jb] == ly[b];
    var jc :| 0 <= jc < |results[c].rayBundle.x| && results[c].rayBundle.x[jc] == hx[c];
    var jd :| 0 <= jd < |results[d].rayBundle.y| && results[d].rayBundle.y[jd] == hy[d];
    ForceSquareBoxIsSmallest(Min(lx), Min(ly), Max(hx), Max(hy), other);
  }

  /** The minimal data box holds every intersection, so it is never smaller than the tight one. */
  lemma TightDataBoxWithinMinimal(results: seq<RayTraceResult>)
    requires |results| > 0
    requires forall i :: 0 <= i < |results| ==> HasIntersections(results[i])
    ensures TightDataBox(results).width <= MinimalDataBox(results).width
  {
    forall i | 0 <= i < |results| {
      MinimalDataBoxHoldsEveryPoint(results, i);
    }
    TightDataBoxIsSmallest(results, MinimalDataBox(results));
  }

  /** `MinimalDataBox` squares the union of the data boxes. */
  lemma MinimalDataBoxOfBoxes(results: seq<RayTraceResult>, boxes: seq<BoundingBox>)
    requires |results| > 0
    requires forall i :: 0 <= i < |results| ==> HasIntersections(results[i])
    requires boxes == DataBoxes(results)
    ensures MinimalDataBox(results) == ForceSquareBox(
      Min(Lefts(boxes)), Min(Bottoms(boxes)), Max(Rights(boxes)), Max(Tops(boxes)))
  {
  }

  /** The box scaled by 1 + 2 * padding about its own centre. */
  function PadBox(box: BoundingBox, padding: real): (padded: BoundingBox)
    ensures padded.minX + padded.width / 2.0 == box.minX + box.width / 2.0
    ensures padded.minY + padded.height / 2.0 == box.minY + box.height / 2.0
    ensures padded.width == (1.0 + 2.0 * padding) * box.width
    ensures padded.height == (1.0 + 2.0 * padding) * box.height
  {
    var centerX := box.minX + box.width / 2.0;
    var centerY := box.minY + box.height / 2.0;
    BoundingBox(
      centerX - ((1.0 + 2.0 * padding) * box.width) / 2.0,
      centerY - ((1.0 + 2.0 * padding) * box.height) / 2.0,
      (1.0 + 2.0 * padding) * box.width,
      (1.0 + 2.0 * padding) * box.height)
  }

  /** Padding keeps a square box square. */
  lemma PadBoxKeepsSquare(box: BoundingBox, padding: real)
    requires box.IsSquare()
    ensures PadBox(box, padding).IsSquare()
  {
  }

  /** A non-negative padding puts a margin of `padding * width` on each side, so the
      padded box holds the original; the margin is padding / (1 + 2 padding) of the
      padded box's width. */
  lemma PadBoxMargins(box: BoundingBox, padding: real)
    requires padding >= 0.0 && box.width >= 0.0 && box.height >= 0.0
    ensures box.minX - PadBox(box, padding).minX == padding * box.width
    ensures PadBox(box, padding).MaxY() - box.MaxY() == padding * box.height
    ensures (box.minX - PadBox(box, padding).minX) * (1.0 + 2.0 * padding)
            == padding * PadBox(box, padding).width
    ensures PadBox(box, padding).ContainsBox(box)
  {
    var padded := PadBox(box, padding);
    assert padding * box.width >= 0.0 && padding * box.height >= 0.0;
  }

  /** Padding twice is padding once by the product of the two scale factors. */
  lemma PadBoxCompose(box: BoundingBox, p1: real, p2: real)
    ensures PadBox(PadBox(box, p1), p2) == PadBox(box, p1 + p2 + 2.0 * p1 * p2)
  {
    var once := PadBox(box, p1);
    var twice := PadBox(once, p2);
    var direct := PadBox(box, p1 + p2 + 2.0 * p1 * p2);
    assert (1.0 + 2.0 * p2) * ((1.0 + 2.0 * p1) * box.width)
        == (1.0 + 2.0 * (p1 + p2 + 2.0 * p1 * p2)) * box.width;
    assert (1.0 + 2.0 * p2) * ((1.0 + 2.0 * p1) * box.height)
        == (1.0 + 2.0 * (p1 + p2 + 2.0 * p1 * p2)) * box.height;
  }
}
