/** The unit tests of the layout module (src/tests/data/layout.test.ts), each stated
    as a lemma about the model. */
module LayoutExamples {
  import opened Types
  import opened Numbers
  import opened GeometryBox
  import opened GridLayout

  /** Squaring the extremes of x = [1,2,3,4], y = [5,6,7,10]. */
  lemma SquareOfTestBundle(x: seq<real>, y: seq<real>)
    requires x == [1.0, 2.0, 3.0, 4.0] && y == [5.0, 6.0, 7.0, 10.0]
    ensures ForceSquareBox(Min(x), Min(y), Max(x), Max(y)) == BoundingBox(0.0, 5.0, 5.0, 5.0)
  {
    ExtremesOfTestBundle(x, y);
    SquareOfCorners(1.0, 5.0, 4.0, 10.0, 5.0);
  }

  /** The extremes of x = [1,2,3,4] and y = [5,6,7,10]. */
  lemma ExtremesOfTestBundle(x: seq<real>, y: seq<real>)
    requires x == [1.0, 2.0, 3.0, 4.0] && y == [5.0, 6.0, 7.0, 10.0]
    ensures Min(x) == 1.0 && Max(x) == 4.0 && Min(y) == 5.0 && Max(y) == 10.0
  {
    assert x[0] == 1.0 && x[3] == 4.0 && y[0] == 5.0 && y[3] == 10.0;
    MinIsLeast(x, 1.0);
    MaxIsGreatest(x, 4.0);
    MinIsLeast(y, 5.0);
    MaxIsGreatest(y, 10.0);
  }

  /** Squaring a rectangle whose longer side is `side`. */
  lemma SquareOfCorners(minX: real, minY: real, maxX: real, maxY: real, side: real)
    requires side == maxX - minX || side == maxY - minY
    requires maxX - minX <= side && maxY - minY <= side
    ensures ForceSquareBox(minX, minY, maxX, maxY) ==
            BoundingBox((minX + maxX - side) / 2.0, (minY + maxY - side) / 2.0, side, side)
  {
    var sides := [maxX - minX, maxY - minY];
    if side == sides[0] {
      MaxIsGreatest(sides, side);
    } else {
      assert side == sides[1];
      MaxIsGreatest(sides, side);
    }
  }

  /** The data box of the unit test: x = [1,2,3,4], y = [5,6,7,10] gives [0,5,5,5]. */
  lemma DataBoxExample(result: RayTraceResult)
    requires result.rayBundle.x == [1.0, 2.0, 3.0, 4.0]
    requires result.rayBundle.y == [5.0, 6.0, 7.0, 10.0]
    ensures DataBox(result) == BoundingBox(0.0, 5.0, 5.0, 5.0)
  {
    DataBoxOfExtremes(result);
    SquareOfTestBundle(result.rayBundle.x, result.rayBundle.y);
  }

  /** Squaring the extremes of x = [0,1,2], y = [3,4,5]. */
  lemma SquareOfSecondTestBundle(x: seq<real>, y: seq<real>)
    requires x == [0.0, 1.0, 2.0] && y == [3.0, 4.0, 5.0]
    ensures ForceSquareBox(Min(x), Min(y), Max(x), Max(y)) == BoundingBox(0.0, 3.0, 2.0, 2.0)
  {
    ExtremesOfSecondTestBundle(x, y);
    SquareOfCorners(0.0, 3.0, 2.0, 5.0, 2.0);
  }

  /** The extremes of x = [0,1,2] and y = [3,4,5]. */
  lemma ExtremesOfSecondTestBundle(x: seq<real>, y: seq<real>)
    requires x == [0.0, 1.0, 2.0] && y == [3.0, 4.0, 5.0]
    ensures Min(x) == 0.0 && Max(x) == 2.0 && Min(y) == 3.0 && Max(y) == 5.0
  {
    assert x[0] == 0.0 && x[2] == 2.0 && y[0] == 3.0 && y[2] == 5.0;
    MinIsLeast(x, 0.0);
    MaxIsGreatest(x, 2.0);
    MinIsLeast(y, 3.0);
    MaxIsGreatest(y, 5.0);
  }

  /** The second bundle of the two-result unit test has the data box [0,3,2,2]. */
  lemma SecondTestDataBox(result: RayTraceResult)
    requires result.rayBundle.x == [0.0, 1.0, 2.0]
    requires result.rayBundle.y == [3.0, 4.0, 5.0]
    ensures DataBox(result) == BoundingBox(0.0, 3.0, 2.0, 2.0)
  {
    DataBoxOfExtremes(result);
    SquareOfSecondTestBundle(result.rayBundle.x, result.rayBundle.y);
  }

  /** Any two results whose data boxes are [0,5,5,5] and [0,3,2,2] have the minimal box [-1,3,7,7]. */
  lemma MinimalDataBoxOfTestBoxes(results: seq<RayTraceResult>)
    requires |results| == 2
    requires forall i :: 0 <= i < |results| ==> HasIntersections(results[i])
    requires DataBoxes(results) == [BoundingBox(0.0, 5.0, 5.0, 5.0), BoundingBox(0.0, 3.0, 2.0, 2.0)]
    ensures MinimalDataBox(results) == BoundingBox(-1.0, 3.0, 7.0, 7.0)
  {
    var boxes := DataBoxes(results);
    MinimalDataBoxOfBoxes(results, boxes);
    UnionOfTestBoxes(boxes);
  }

  /** The two-result unit test: the union of [0,5,5,5] and [0,3,2,2] squared is [-1,3,7,7]. */
  lemma MinimalDataBoxExample(results: seq<RayTraceResult>)
    requires |results| == 2
    requires results[0].rayBundle.x == [1.0, 2.0, 3.0, 4.0]
    requires results[0].rayBundle.y == [5.0, 6.0, 7.0, 10.0]
    requires results[1].rayBundle.x == [0.0, 1.0, 2.0]
    requires results[1].rayBundle.y == [3.0, 4.0, 5.0]
    ensures MinimalDataBox(results) == BoundingBox(-1.0, 3.0, 7.0, 7.0)
  {
    DataBoxExample(results[0]);
    SecondTestDataBox(results[1]);
    DataBoxesOfTwo(results);
    MinimalDataBoxOfTestBoxes(results);
  }

  /** The data boxes of two results, in order. */
  lemma DataBoxesOfTwo(results: seq<RayTraceResult>)
    requires |results| == 2
    requires HasIntersections(results[0]) && HasIntersections(results[1])
    ensures DataBoxes(results) == [DataBox(results[0]), DataBox(results[1])]
  {
  }

  /** Squaring the union of [0,5,5,5] and [0,3,2,2]. */
  lemma UnionOfTestBoxes(boxes: seq<BoundingBox>)
    requires boxes == [BoundingBox(0.0, 5.0, 5.0, 5.0), BoundingBox(0.0, 3.0, 2.0, 2.0)]
    ensures ForceSquareBox(Min(Lefts(boxes)), Min(Bottoms(boxes)), Max(Rights(boxes)), Max(Tops(boxes)))
         == BoundingBox(-1.0, 3.0, 7.0, 7.0)
  {
    var l, b, r, t := Lefts(boxes), Bottoms(boxes), Rights(boxes), Tops(boxes);
    assert l[0] == 0.0 && l[1] == 0.0 && b[0] == 5.0 && b[1] == 3.0;
    assert r[0] == 5.0 && r[1] == 2.0 && t[0] == 10.0 && t[1] == 5.0;
    MinIsLeast(l, 0.0);
    MinIsLeast(b, 3.0);
    MaxIsGreatest(r, 5.0);
    MaxIsGreatest(t, 10.0);
    SquareOfCorners(0.0, 3.0, 5.0, 10.0, 7.0);
  }

  /** For two results the tight box squares the extremes of the two bundles' extremes. */
  lemma TightDataBoxOfTwo(results: seq<RayTraceResult>)
    requires |results| == 2
    requires HasIntersections(results[0]) && HasIntersections(results[1])
    ensures TightDataBox(results) == ForceSquareBox(
      Min([Min(results[0].rayBundle.x), Min(results[1].rayBundle.x)]),
      Min([Min(results[0].rayBundle.y), Min(results[1].rayBundle.y)]),
      Max([Max(results[0].rayBundle.x), Max(results[1].rayBundle.x)]),
      Max([Max(results[0].rayBundle.y), Max(results[1].rayBundle.y)]))
  {
    assert forall k :: 0 <= k < |results| ==> HasIntersections(results[k]);
    var a, b := results[0].rayBundle, results[1].rayBundle;
    var lx, ly, hx, hy := LowestXs(results), LowestYs(results), HighestXs(results), HighestYs(results);
    MinIsLeast(a.x, lx[0]);
    MinIsLeast(b.x, lx[1]);
    MinIsLeast(a.y, ly[0]);
    MinIsLeast(b.y, ly[1]);
    MaxIsGreatest(a.x, hx[0]);
    MaxIsGreatest(b.x, hx[1]);
    MaxIsGreatest(a.y, hy[0]);
    MaxIsGreatest(b.y, hy[1]);
    PairOf(lx);
    PairOf(ly);
    PairOf(hx);
    PairOf(hy);
    TightDataBoxOfExtremes(results);
  }

  /** A sequence of two elements is the display of those two. */
  lemma PairOf(s: seq<real>)
    requires |s| == 2
    ensures s == [s[0], s[1]]
  {
  }

  /** Squaring the extremes x in [0, 4], y in [3, 10] of the two test bundles. */
  lemma SquareOfTestExtremes(lx: seq<real>, ly: seq<real>, hx: seq<real>, hy: seq<real>)
    requires lx == [1.0, 0.0] && ly == [5.0, 3.0] && hx == [4.0, 2.0] && hy == [10.0, 5.0]
    ensures ForceSquareBox(Min(lx), Min(ly), Max(hx), Max(hy)) == BoundingBox(-1.5, 3.0, 7.0, 7.0)
  {
    MinIsLeast(lx, 0.0);
    MinIsLeast(ly, 3.0);
    MaxIsGreatest(hx, 4.0);
    MaxIsGreatest(hy, 10.0);
    SquareOfCorners(0.0, 3.0, 4.0, 10.0, 7.0);
  }

  /** The two bundles of the unit test together span x in [0, 4] and y in [3, 10], so
      their tight box is [-1.5,3,7,7]: as wide as the box the test expects, but not
      where it expects it. */
  lemma TightDataBoxExample(results: seq<RayTraceResult>)
    requires |results| == 2
    requires results[0].rayBundle.x == [1.0, 2.0, 3.0, 4.0]
    requires results[0].rayBundle.y == [5.0, 6.0, 7.0, 10.0]
    requires results[1].rayBundle.x == [0.0, 1.0, 2.0]
    requires results[1].rayBundle.y == [3.0, 4.0, 5.0]
    ensures TightDataBox(results) == BoundingBox(-1.5, 3.0, 7.0, 7.0)
  {
    ExtremesOfTestBundle(results[0].rayBundle.x, results[0].rayBundle.y);
    ExtremesOfSecondTestBundle(results[1].rayBundle.x, results[1].rayBundle.y);
    TightDataBoxOfTwo(results);
    SquareOfTestExtremes([1.0, 0.0], [5.0, 3.0], [4.0, 2.0], [10.0, 5.0]);
  }

  /** A bundle that crosses the surfaces along the vertical segment from (x0, 0) to (x0, 10)
      has the 10-wide data box centred on that segment. */
  lemma VerticalSegmentDataBox(result: RayTraceResult, x0: real)
    requires result.rayBundle == RayIntersections([x0, x0], [0.0, 10.0])
    ensures DataBox(result) == BoundingBox(x0 - 5.0, 0.0, 10.0, 10.0)
  {
    var x, y := result.rayBundle.x, result.rayBundle.y;
    MinIsLeast(x, x0);
    MaxIsGreatest(x, x0);
    MinIsLeast(y, 0.0);
    MaxIsGreatest(y, 10.0);
    DataBoxOfExtremes(result);
    SquareOfCorners(x0, 0.0, x0, 10.0, 10.0);
  }

  /** The 100-wide square [x0,-45,100,100] holds both vertical segments of the example below,
      so the tight box of the two is no wider. */
  lemma TightDataBoxOfSegments(results: seq<RayTraceResult>, x0: real)
    requires |results| == 2
    requires results[0].rayBundle == RayIntersections([x0, x0], [0.0, 10.0])
    requires results[1].rayBundle == RayIntersections([x0 + 100.0, x0 + 100.0], [0.0, 10.0])
    ensures TightDataBox(results).width <= 100.0
  {
    var square := BoundingBox(x0, -45.0, 100.0, 100.0);
    assert HoldsEveryIntersection(square, results);
    TightDataBoxIsSmallest(results, square);
  }

  /** Two results whose data boxes are [x0-5,0,10,10] and [x0+95,0,10,10] have a minimal
      data box at least 110 wide. */
  lemma MinimalDataBoxOfSegments(results: seq<RayTraceResult>, x0: real)
    requires |results| == 2
    requires forall k :: 0 <= k < |results| ==> HasIntersections(results[k])
    requires DataBox(results[0]) == BoundingBox(x0 - 5.0, 0.0, 10.0, 10.0)
    requires DataBox(results[1]) == BoundingBox(x0 + 95.0, 0.0, 10.0, 10.0)
    ensures MinimalDataBox(results).width >= 110.0
  {
    MinimalDataBoxSpans(results, 0, 1);
  }

  /** Two vertical segments from (x0, 0) to (x0, 10) and from (x0 + 100, 0) to (x0 + 100, 10):
      squaring each bundle first and then squaring the union of those squares gives a box
      at least 110 wide, although a 100-wide square holds every intersection. */
  lemma MinimalDataBoxNotTightest(results: seq<RayTraceResult>, x0: real)
    requires |results| == 2
    requires results[0].rayBundle == RayIntersections([x0, x0], [0.0, 10.0])
    requires results[1].rayBundle == RayIntersections([x0 + 100.0, x0 + 100.0], [0.0, 10.0])
    ensures TightDataBox(results).width < MinimalDataBox(results).width
  {
    TightDataBoxOfSegments(results, x0);
    VerticalSegmentDataBox(results[0], x0);
    VerticalSegmentDataBox(results[1], x0 + 100.0);
    assert HasIntersections(results[0]) && HasIntersections(results[1]);
    MinimalDataBoxOfSegments(results, x0);
  }

  /** The unit test: [0,5,5,5] padded by 0.1 is [-0.5,4.5,6,6]. */
  lemma PadBoxExample()
    ensures PadBox(BoundingBox(0.0, 5.0, 5.0, 5.0), 0.1) == BoundingBox(-0.5, 4.5, 6.0, 6.0)
  {
  }

  /** The unit test of `calcNumRowsAndCols`: three wavelengths and two field specs
      give two rows of three columns. */
  lemma GridOfTestSpecs(wavelengths: seq<SystemSpec>, fieldSpecs: seq<FieldSpec>)
    requires wavelengths == [SystemSpec(0.4861, "µm"), SystemSpec(0.5876, "µm"), SystemSpec(0.6563, "µm")]
    requires fieldSpecs == [FieldSpec(0.0, "deg", Angle), FieldSpec(5.0, "deg", Angle)]
    ensures CalcNumRowsAndCols(wavelengths, fieldSpecs) == (2, 3)
  {
  }

  /** The unit test of `titlePosition`: the box [0,0,10,5] with offset 0.5 puts
      the title at (5, 0.5). */
  lemma TitlePositionExample()
    ensures TitlePosition(BoundingBox(0.0, 0.0, 10.0, 5.0), 0.5) == (5.0, 0.5)
  {
  }
}
