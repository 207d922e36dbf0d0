# react-optics-diagrams: the data layer, in Dafny

This project models the three computational modules under the React components of
react-optics-diagrams. The components draw spot diagrams of ray traces through an
optical system. The three modules are:

- **Layout** (`src/data/layout.ts`). `forceSquareBox`, `dataBox`, `minimalDataBox`
  and `padBox` turn scattered ray intersections into square bounding boxes
  `[minX, minY, width, height]` and grow them about their centre. `niceNumber` and
  `calcTickPositions` pick axis ticks whose step is 1, 2, 5 or 10 times a power of
  ten, all of them inside `[min, max]`. `calcNumRowsAndCols`, `titlePosition` and
  `fontSize` size the grid of diagrams and place their titles. These are the
  modules `Numbers`, `GeometryBox`, `TickEngine` and `GridLayout`.
- **Spec ordering** (`src/data/specs.ts`). `sortSystemSpecsIndexes` lists the
  positions of the wavelengths or field specs in increasing order of value. This is
  module `SpecOrdering`.
- **Ray selection** (`src/data/rays.ts`). This module selects the ray trace results
  of one wavelength, one field or one surface, or of the last surface. This is
  module `RaySelection`.

The records of `src/types.ts` are the datatypes of module `Types`:
- `BoundingBox` is a datatype with named fields, not a 4-tuple;
- an absent `surfaceId` is `None`;
- numbers are `real`, and ids are `int`.

The unit tests in `src/tests/data` are restated as lemmas in `LayoutExamples`,
`TickExamples` and `SpecExamples`.

The model takes each module in the form the code has:
- The box, grid and selection functions are single expressions. They are Dafny
  functions with lemmas beside them.
- `calcTickPositions` is a recursive method (`TickEngine.CalcTickPositions`). It
  reassigns `niceMin` and `niceMax` (`SnapInward`) and pushes ticks in a loop
  (`ListTicks`).
- `niceNumber` runs its if-chain in `RoundToNiceNumber`.
- `sortSystemSpecsIndexes` sorts an array of `{ item, index }` records in place
  (`SortByValue`, an insertion sort). Each method is proved equal to a
  specification function (`TickEngine.SnappedTicks`, `TickEngine.NiceNumber` and
  `SpecOrdering.StableOrder`). The properties the code promises are proved about
  those functions.

Points where the model says more than the code, or reads it a particular way:
- **Retry termination is proved.** The retry in `calcTickPositions`
  (`layout.ts:119-122`) doubles `maxTickCount` until there are enough ticks. The
  model proves this ends without a fuel bound: once `maxTickCount >= 2 *
  minTickCount + 1`, the nice step is at most 5/3 of the rough step, and that leaves
  at least `minTickCount` ticks (`TickEngine.EnoughTicksEventually`).
- **Tick snapping stays inside the range.** Over the reals, the snapping of
  `layout.ts:106-115` gives the least and the greatest multiples of the step inside
  `[min, max]`. The tick loop's `1e-10` tolerance (`layout.ts:129`) is kept, and
  it never drops a tick (`TickEngine.ListTicks`).
- **`padBox`'s doc comment disagrees with its code.** The comment
  (`layout.ts:61-69`) describes padding as a fraction of the *padded* box. The code
  and its unit test use a fraction of the *original* box: each side gets a margin of
  `padding * width`. The model follows the code. `GeometryBox.PadBoxMargins` states
  both facts: the margin is `padding * width`, and it is `padding / (1 + 2 padding)`
  of the padded box.
- **`minimalDataBox` squares twice.** Its doc comment (`layout.ts:32-38`) promises
  the smallest square that bounds the ray intersections of all the results. The code
  (`layout.ts:39-47`) squares each result's bundle first and then squares the union
  of those squares, so its box can be wider than needed (see "## Findings").
  `GeometryBox.MinimalDataBox` models the code. `GeometryBox.TightDataBox` is the box
  the comment describes. The unit test (`layout.test.ts:37-68`) expects the code's
  box `[-1,3,7,7]`. The tight box of its bundles has the same width 7 but starts at
  x = -1.5, so the test pins the code's behaviour.
- **The sort is stable.** `Array.prototype.sort` has been stable since ES2019, so
  `sortSystemSpecsIndexes` breaks ties by original position. The model proves the
  order is the unique stable order, which depends on the values alone. The input is
  a value (`seq`) and only the local array is sorted, so the caller's specs are
  never reordered.

## Model

| member | source | states |
|---|---|---|
| Numbers.Min | src/data/layout.ts:24-25 | `Math.min` of a non-empty array is one of its elements and no element is smaller |
| Numbers.Max | src/data/layout.ts:26-27 | `Math.max` of a non-empty array is one of its elements and no element is larger |
| Numbers.MinIsLeast | src/data/layout.ts:24-25 | an element below or equal to every element is the minimum |
| Numbers.MaxIsGreatest | src/data/layout.ts:26-27 | an element above or equal to every element is the maximum |
| Numbers.Floor | src/data/layout.ts:106 | `Math.floor(x)` is the integer n with n <= x < n + 1 |
| Numbers.Ceil | src/data/layout.ts:107 | `Math.ceil(x)` is the integer n with n - 1 < x <= n |
| Numbers.Round | src/data/layout.ts:117 | `Math.round(x)` lies within half a unit of x, halves going up |
| Numbers.FloorCeil | src/data/layout.ts:106-107 | floor and ceiling agree exactly on integers and are one apart otherwise |
| Numbers.RoundInteger | src/data/layout.ts:117 | rounding an integer gives it back |
| Numbers.Pow10 | src/data/layout.ts:149 | `Math.pow(10, k)` is positive for every integer k |
| Numbers.Pow10Succ | src/data/layout.ts:149 | 10^(k+1) is ten times 10^k |
| Numbers.Pow10Monotone | src/data/layout.ts:149 | powers of ten strictly increase with the exponent |
| Numbers.FractionInDecade | src/data/layout.ts:149 | a value between p and 10p divided by p lies in [1, 10) |
| Numbers.Exponent | src/data/layout.ts:148 | `Math.floor(Math.log10(v))` is non-negative exactly when v >= 1, and is 0 on [1, 10) |
| Numbers.ExponentBrackets | src/data/layout.ts:148 | `Math.floor(Math.log10(v))` is a k with 10^k <= v < 10^(k+1) |
| Numbers.ExponentUnique | src/data/layout.ts:148 | that k is the only integer bracketing v between consecutive powers of ten |
| GeometryBox.ForceSquareBox | src/data/layout.ts:49-59 | the box is square; its side is one of the rectangle's sides and not shorter than either; it has the rectangle's centre and contains the rectangle |
| GeometryBox.ForceSquareBoxIsSmallest | src/data/layout.ts:49-59 | every square box that contains the rectangle is at least as wide |
| GeometryBox.ForceSquareBoxOfSquare | src/data/layout.ts:49-59 | squaring the corners of a square box gives the same box |
| GeometryBox.DataBox | src/data/layout.ts:20-30 | the data box is square, of non-negative width, and holds every x and every y of the ray bundle |
| GeometryBox.DataBoxIsSmallest | src/data/layout.ts:20-30 | every square box holding all the bundle's intersections is at least as wide |
| GeometryBox.DataBoxIgnoresChiefRay | src/data/layout.ts:20-22 | replacing the chief ray leaves the data box unchanged |
| GeometryBox.DataBoxes | src/data/layout.ts:40 | one data box per result, in order |
| GeometryBox.Lefts | src/data/layout.ts:41 | the left edges `box[0]` of the boxes, in order |
| GeometryBox.Bottoms | src/data/layout.ts:42 | the bottom edges `box[1]` of the boxes, in order |
| GeometryBox.Rights | src/data/layout.ts:43 | the right edges `box[0] + box[2]` of the boxes, in order |
| GeometryBox.Tops | src/data/layout.ts:44 | the top edges `box[1] + box[3]` of the boxes, in order |
| GeometryBox.MinimalDataBox | src/data/layout.ts:39-47 | the minimal data box is square and contains the data box of every result |
| GeometryBox.MinimalDataBoxHoldsEveryPoint | src/data/layout.ts:39-47 | every ray intersection of every result lies in the minimal data box |
| GeometryBox.MinimalDataBoxOfOne | src/data/layout.ts:39-47 | for a single result the minimal data box is its data box |
| GeometryBox.UnionSquareIsSmallest | src/data/layout.ts:41-46 | every square box holding all the boxes is at least as wide as the square over their union |
| GeometryBox.MinimalDataBoxIsSmallest | src/data/layout.ts:39-47 | every square box holding the data box of every result is at least as wide as the minimal data box |
| GeometryBox.MinimalDataBoxSpans | src/data/layout.ts:39-47 | the minimal data box is at least as wide as the distance from one data box's left edge to another's right edge |
| GeometryBox.TightDataBox | src/data/layout.ts:32-38 | the square over the extremes of all bundles together is square, of non-negative width, and holds every intersection of every result |
| GeometryBox.TightDataBoxIsSmallest | src/data/layout.ts:32-38 | every square box holding every intersection of every result is at least as wide as the tight box |
| GeometryBox.TightDataBoxWithinMinimal | src/data/layout.ts:32-47 | the tight box is never wider than the minimal data box |
| GeometryBox.PadBox | src/data/layout.ts:70-81 | the padded box keeps the centre and has width and height scaled by 1 + 2·padding |
| GeometryBox.PadBoxKeepsSquare | src/data/layout.ts:70-81 | padding a square box gives a square box |
| GeometryBox.PadBoxMargins | src/data/layout.ts:61-81 | for padding >= 0, each side gains a margin of padding·width (or padding·height), so the padded box contains the original, and the margin is padding/(1+2·padding) of the padded width |
| GeometryBox.PadBoxCompose | src/data/layout.ts:70-81 | padding by p1 then p2 is padding once by p1 + p2 + 2·p1·p2, so the scale factors multiply |
| GridLayout.CalcNumRowsAndCols | src/data/layout.ts:173-181 | one row per field spec and one column per wavelength |
| GridLayout.TitlePosition | src/data/layout.ts:189-198 | the title's x is equidistant from the box's left and right edges, and its y is titleOffset from the box's minimum y |
| GridLayout.TitleCentreSurvivesPadding | src/data/layout.ts:189-198 | the title's x is unchanged when the box is padded |
| GridLayout.FontSize | src/data/layout.ts:206-210 | the font size squared is fontSizeFraction² · (width² + height²), and it is non-negative when the fraction is |
| GridLayout.DiagonalUnique | src/data/layout.ts:208 | the non-negative root of width² + height² is unique, so the font size does not depend on how the diagonal was obtained |
| GridLayout.FontSizeOfPaddedBox | src/data/layout.ts:206-210 | padding a box by p scales its diagonal and its font size by 1 + 2p |
| TickEngine.NiceFraction | src/data/layout.ts:151-162 | the nice fraction is 1, 2, 5 or 10, and for a fraction in [1, 10) it lies strictly above 2/3 and at most 5/3 of the fraction |
| TickEngine.LeadingFraction | src/data/layout.ts:148-149 | with 10^k <= value < 10^(k+1), value / 10^k lies in [1, 10) |
| TickEngine.ScaledNiceBounds | src/data/layout.ts:147-165 | the nice fraction times 10^k stays within 2/3 to 5/3 of the value |
| TickEngine.NiceFractionScaled | src/data/layout.ts:149-164 | scaling the nice fraction of value / p back by p keeps it within 2/3 to 5/3 of the value |
| TickEngine.ScaledNiceIsNice | src/data/layout.ts:164 | the nice fraction times 10^k is 1, 2 or 5 times a power of ten |
| TickEngine.NiceNumberBounds | src/data/layout.ts:147-165 | `niceNumber(v)` lies strictly above 2/3 of v and at most at 5/3 of v |
| TickEngine.NiceNumberIsNiceStep | src/data/layout.ts:147-165 | `niceNumber(v)` is 1, 2 or 5 times a power of ten, the form the doc comment promises for steps |
| TickEngine.NiceNumberAt | src/data/layout.ts:147-165 | for any k with 10^k <= v < 10^(k+1), `niceNumber(v)` is the nice fraction of v / 10^k times 10^k |
| TickEngine.NiceNumberFixesNiceSteps | src/data/layout.ts:147-165 | a nice step is its own nice number |
| TickEngine.NiceMultipleFixed | src/data/layout.ts:147-165 | 1, 2 or 5 times 10^k is its own nice number |
| TickEngine.NiceNumberIdempotent | src/data/layout.ts:147-165 | rounding to a nice number twice is rounding once |
| TickEngine.RoundToNiceNumber | src/data/layout.ts:147-165 | the if-chain over the thresholds 1.5, 3 and 7 computes the nice number of the value |
| TickEngine.TickStep | src/data/layout.ts:102-105 | the step tried for a given maxTickCount is positive and at most 5/3 of range / (maxTickCount - 1) |
| TickEngine.SnapUp | src/data/layout.ts:106-112 | Ceil(x / step) steps is a multiple of the step at or above x, less than one step above it |
| TickEngine.SnapUpLeast | src/data/layout.ts:106-112 | no multiple of the step below Ceil(x / step) steps reaches x |
| TickEngine.SnapDown | src/data/layout.ts:107-115 | Floor(x / step) steps is a multiple of the step at or below x, less than one step below it |
| TickEngine.SnapDownGreatest | src/data/layout.ts:107-115 | no multiple of the step above Floor(x / step) steps stays at or below x |
| TickEngine.RaisedFloorIsCeil | src/data/layout.ts:106-112 | flooring min / step and raising one step when below min gives the least multiple of the step at or above min |
| TickEngine.LoweredCeilIsFloor | src/data/layout.ts:107-115 | ceiling max / step and lowering one step when above max gives the greatest multiple of the step at or below max |
| TickEngine.EnoughTicksEventually | src/data/layout.ts:117-122 | once maxTickCount >= 2·minTickCount + 1 the snapped range holds at least minTickCount ticks, so the retry stops |
| TickEngine.StepsInRange | src/data/layout.ts:102-105 | a step at most 5/3 of range / parts fits at least 3/5·parts times in the range |
| TickEngine.SettledMaxTickCount | src/data/layout.ts:119-122 | the maxTickCount at which the doubling stops is no smaller than the one asked for, and is either that one or below 4·minTickCount + 2 |
| TickEngine.SettledGivesEnoughTicks | src/data/layout.ts:117-122 | the settled maxTickCount gives at least minTickCount ticks |
| TickEngine.TickCountNonNegative | src/data/layout.ts:106-117 | over a range with min < max the snapped ends are at most one step past each other, so the tick count is never negative |
| TickEngine.TicksSnoc | src/data/layout.ts:124-132 | listing one more tick appends the next tick value |
| TickEngine.SnappedTicks | src/data/layout.ts:106-139 | the record keeps the step, and every tick lies within [min, max] |
| TickEngine.CalcTickPositions | src/data/layout.ts:96-140 | the returned ticks are the multiples of the settled nice step inside [min, max], and there are at least minTickCount of them |
| TickEngine.SnapInward | src/data/layout.ts:106-117 | niceMin and niceMax are the least and the greatest multiples of the step inside [min, max], and tickCount is the number of steps between them plus one |
| TickEngine.LastTickWithin | src/data/layout.ts:124-132 | from low·step, high − low further steps land exactly on high·step |
| TickEngine.ListTicks | src/data/layout.ts:124-132 | when the last tick does not pass niceMax, the loop keeps every tick niceMin + i·step for i < tickCount; it never lists more than tickCount |
| TickEngine.RoundedTickCount | src/data/layout.ts:117 | between two multiples of the step, the rounded number of steps is the exact difference of the multipliers |
| TickEngine.SnappedTicksWithin | src/data/layout.ts:106-139 | non-empty ticks have min <= ticks.min <= ticks.max <= max, start at ticks.min, end at ticks.max and ascend by exactly one step |
| TickEngine.SnappedTicksAreMultiples | src/data/layout.ts:124-132 | every tick is an integer multiple of the step and lies within [min, max] |
| TickEngine.TickValueIsMultiple | src/data/layout.ts:126 | the i-th tick from low·step is (low + i)·step |
| TickEngine.MultipleWithin | src/data/layout.ts:106-115 | a multiple of the step between the two snapped ends lies within [min, max] |
| TickEngine.MultipleAboveMin | src/data/layout.ts:106-112 | a multiple from Ceil(min / step) steps on is not below min |
| TickEngine.MultipleBelowMax | src/data/layout.ts:113-115 | a multiple up to Floor(max / step) steps is not above max |
| TickEngine.SnappedTicksCoverMultiples | src/data/layout.ts:106-132 | every integer multiple of the step within [min, max] is one of the ticks, at the place its multiplier gives |
| SpecOrdering.Indexed | src/data/specs.ts:16-19 | one record per spec, pairing it with its own position |
| SpecOrdering.Indexes | src/data/specs.ts:25 | the positions of the records, in order |
| SpecOrdering.Insert | src/data/specs.ts:22 | inserting adds exactly the one record to the sorted records |
| SpecOrdering.StableSort | src/data/specs.ts:22 | the reference stable sort is a permutation of its input |
| SpecOrdering.InsertSorted | src/data/specs.ts:22 | inserting a record that came after all the sorted ones keeps them sorted by value, ties by position |
| SpecOrdering.StableSortSorted | src/data/specs.ts:22 | sorting records listed by increasing position sorts them by value, with ties in their original order |
| SpecOrdering.SortedUnique | src/data/specs.ts:22 | two strictly sorted sequences with the same records are equal, so the stable sort's result is unique |
| SpecOrdering.FirstNotInTail | src/data/specs.ts:22 | in a strictly sorted sequence the tail holds every record but the first |
| SpecOrdering.SortedRecords | src/data/specs.ts:16-22 | every sorted record is the record of its own position |
| SpecOrdering.StableOrder | src/data/specs.ts:13-26 | the order has one entry per spec |
| SpecOrdering.StableOrderSortsStably | src/data/specs.ts:13-26 | the order has as many entries as there are specs, lists every position once, by non-decreasing value, ties in their original order |
| SpecOrdering.Records | src/data/specs.ts:16-19 | the records of the listed positions, in order |
| SpecOrdering.RecordsSorted | src/data/specs.ts:22 | the records of a stable order are sorted by value, ties by position |
| SpecOrdering.RecordsMembers | src/data/specs.ts:16-22 | the records of a stable order are the records of all positions |
| SpecOrdering.StableOrderUnique | src/data/specs.ts:13-26 | any order that lists the positions stably sorted by value is the order returned |
| SpecOrdering.StableOrderOnlyReadsValues | src/data/specs.ts:22 | specs with the same values in the same places give the same order; units and kinds play no part |
| SpecOrdering.SortSystemSpecsIndexes | src/data/specs.ts:13-26 | the method returns the stable order of the specs |
| SpecOrdering.SortByValue | src/data/specs.ts:22 | the in-place sort leaves the array a permutation of its records, sorted by value with ties in their original order |
| SpecOrdering.SinkLast | src/data/specs.ts:22 | one insertion step moves the record past the larger values before it and changes nothing else |
| SpecOrdering.SinkStep | src/data/specs.ts:22 | after an insertion step the prefix is sorted and the array holds the same records |
| SpecOrdering.SortStep | src/data/specs.ts:22 | after one insertion step the sorted prefix is one longer, the rest of the array is untouched, and the array holds the same records |
| SpecOrdering.InsertedAt | src/data/specs.ts:22 | placing a record at position j keeps the others in order around it and adds exactly that record |
| SpecOrdering.InsertAt | src/data/specs.ts:22 | placing a later record after the values not larger than its own keeps a sorted sequence sorted |
| RaySelection.Filter | src/data/rays.ts:12-14 | `filter` keeps exactly the accepted elements and is no longer than its input |
| RaySelection.FilterIsSubsequence | src/data/rays.ts:12-14 | `filter` keeps the survivors in their original order |
| RaySelection.SubsequenceOfLonger | src/data/rays.ts:12-14 | a subsequence of the tail is a subsequence of the whole |
| RaySelection.FilterCounts | src/data/rays.ts:12-14 | `filter` keeps every copy of an accepted element and drops every other element |
| RaySelection.FilterConcat | src/data/rays.ts:12-14 | filtering a concatenation filters each part |
| RaySelection.FilterIdempotent | src/data/rays.ts:12-14 | filtering twice by the same test is filtering once |
| RaySelection.FilterCommutes | src/data/rays.ts:12-21 | two filters can be applied in either order |
| RaySelection.ByWavelength | src/data/rays.ts:8-15 | exactly the results with the given wavelength id |
| RaySelection.ByField | src/data/rays.ts:17-22 | exactly the results with the given field id |
| RaySelection.BySurface | src/data/rays.ts:24-29 | exactly the results whose surface id is present and equal to the given one |
| RaySelection.SurfaceKey | src/data/rays.ts:35 | `surfaceId \|\| 0` is the surface id when there is one, and 0 otherwise |
| RaySelection.LastSurfaceId | src/data/rays.ts:34-36 | the maximum surface key (absent id counted as 0) is some result's key and no result's key exceeds it |
| RaySelection.AtLastSurface | src/data/rays.ts:31-39 | the results at the maximum surface key, and none for an empty list |
| RaySelection.SelectionsAreStable | src/data/rays.ts:8-29 | each selection keeps its results in their original order, and selecting again changes nothing |
| RaySelection.SelectionCounts | src/data/rays.ts:8-29 | selecting by wavelength, by field or by surface keeps every copy of a matching result and no other result |
| RaySelection.FieldThenWavelength | src/data/rays.ts:8-22 | selecting a field then a wavelength gives the same results as the other way round |
| RaySelection.AtLastSurfaceMembers | src/data/rays.ts:31-39 | a result is at the last surface exactly when its surface id is present and no result's key exceeds it |
| RaySelection.AtLastSurfaceNonEmpty | src/data/rays.ts:31-39 | when every result names its surface, at least one result is at the last surface |
| RaySelection.AtLastSurfaceWithoutIds | src/data/rays.ts:34-38 | when no result names a surface, nothing is selected |
| RaySelection.AtLastSurfaceZero | src/data/rays.ts:34-38 | when the maximum key is 0, only results that name surface 0 are kept, and results without an id are not |
| LayoutExamples.SquareOfCorners | src/data/layout.ts:49-59 | a rectangle whose longer side is s squares to the box of side s centred on it |
| LayoutExamples.SquareOfTestBundle | src/tests/data/layout.test.ts:18-35 | the extremes of x = [1,2,3,4], y = [5,6,7,10] square to [0,5,5,5] |
| LayoutExamples.DataBoxExample | src/tests/data/layout.test.ts:18-35 | the data box of that bundle is [0,5,5,5] |
| LayoutExamples.SquareOfSecondTestBundle | src/tests/data/layout.test.ts:52-63 | the extremes of x = [0,1,2], y = [3,4,5] square to [0,3,2,2] |
| LayoutExamples.SecondTestDataBox | src/tests/data/layout.test.ts:52-63 | the data box of that bundle is [0,3,2,2] |
| LayoutExamples.UnionOfTestBoxes | src/tests/data/layout.test.ts:37-68 | the union of [0,5,5,5] and [0,3,2,2] squares to [-1,3,7,7] |
| LayoutExamples.MinimalDataBoxOfTestBoxes | src/tests/data/layout.test.ts:37-68 | results with those two data boxes have minimal data box [-1,3,7,7] |
| LayoutExamples.MinimalDataBoxExample | src/tests/data/layout.test.ts:37-68 | the two test bundles have minimal data box [-1,3,7,7] |
| LayoutExamples.TightDataBoxExample | src/tests/data/layout.test.ts:37-68 | the two test bundles together span x in [0, 4] and y in [3, 10], so their tight box is [-1.5,3,7,7]: as wide as the expected [-1,3,7,7], but shifted |
| LayoutExamples.VerticalSegmentDataBox | src/data/layout.ts:20-30 | a bundle along the segment from (x0, 0) to (x0, 10) has the data box [x0-5, 0, 10, 10] |
| LayoutExamples.TightDataBoxOfSegments | src/data/layout.ts:32-38 | two segments 100 apart fit in a 100-wide square, so their tight box is at most 100 wide |
| LayoutExamples.MinimalDataBoxOfSegments | src/data/layout.ts:39-47 | results whose data boxes are [x0-5,0,10,10] and [x0+95,0,10,10] have a minimal data box at least 110 wide |
| LayoutExamples.MinimalDataBoxNotTightest | src/data/layout.ts:32-47 | for those two segments the minimal data box is strictly wider than the smallest square holding every intersection |
| LayoutExamples.PadBoxExample | src/tests/data/layout.test.ts:70-77 | padding [0,5,5,5] by 0.1 gives [-0.5,4.5,6,6] |
| LayoutExamples.GridOfTestSpecs | src/tests/data/layout.test.ts:101-116 | three wavelengths and two field specs give 2 rows and 3 columns |
| LayoutExamples.TitlePositionExample | src/tests/data/layout.test.ts:118-125 | the title of [0,0,10,5] with offset 0.5 is centred at (5, 0.5) |
| TickExamples.StepOfMinus2To9 | src/tests/data/layout.test.ts:80-89 | the step for [-2, 9] with the default counts is 1 |
| TickExamples.TicksOfMinus2To9 | src/tests/data/layout.test.ts:80-89 | the ticks of [-2, 9] are -2, -1, …, 9, all multiples of the step 1 |
| TickExamples.StepOfMinus244To973 | src/tests/data/layout.test.ts:91-98 | the step for [-2.44, 9.73] with the default counts is 2 |
| TickExamples.TicksOfMinus244To973 | src/tests/data/layout.test.ts:91-98 | the ticks of [-2.44, 9.73] are -2, 0, …, 8, with min and max inside the range |
| SpecExamples.WavelengthOrder | src/tests/data/specs.test.ts:6-17 | wavelengths 0.6563, 0.4861, 0.5876 are ordered [1, 2, 0] |
| SpecExamples.FieldOrder | src/tests/data/specs.test.ts:19-28 | field specs 5.0 and 0.0 are ordered [1, 0] |
| SpecExamples.TiesKeepOrder | src/data/specs.ts:22 | equal values keep their original order: [2, 1, 2] is ordered [1, 0, 2] |

## Left out

- Floating point: NaN, infinities and rounding error are not modelled. Numbers are exact reals. The `1e-10` tolerance of the tick loop is kept as written, and over the reals it never matters.
- `Math.sqrt` in `fontSize` is not modelled. The caller passes the diagonal, a non-negative root of width² + height².
- GridLayout.FontSize: states the size through its square for a caller-supplied root, rather than as `fraction * sqrt(width² + height²)`.
- `Math.log10` and `Math.pow` are modelled by `Numbers.Exponent` and `Numbers.Pow10`, as the integer exponent k with 10^k <= v < 10^(k+1).
- `calcTickPositions` requires `min < max` and `maxTickCount >= 2`. Outside these the rough step `range / (maxTickCount - 1)` is zero, negative, infinite or NaN on the first call, and JavaScript returns NaN values that the model does not follow. Any `minTickCount` is accepted; with `minTickCount <= 0` the first step is kept, and the tick list may be empty.
- `dataBox` and `minimalDataBox` require non-empty coordinate arrays and a non-empty list of results. In JavaScript, `Math.min` and `Math.max` of an empty spread give ±Infinity.
- SpecOrdering.SortByValue: the engine's own sort algorithm is not modelled. An insertion sort stands in for it, and only the stable result is claimed equal.
- The React and SVG components (`Axis`, `SpotDiagram`, `SpotDiagramsGrid`), the demo page and the styled-components CSS are presentation and I/O, not data logic.

## Findings

| source | as written | input that shows it | evidently intended | confidence | as-written member | corrected member |
|---|---|---|---|---|---|---|
| src/data/layout.ts:32-47 | `minimalDataBox` squares the union of the per-result data boxes, which are already squares widened along their shorter side | two bundles, x = [0,0], y = [0,10] and x = [100,100], y = [0,10]: the data boxes are [-5,0,10,10] and [95,0,10,10], so the minimal data box is 110 wide, while the square [0,-45,100,100] holds every intersection | the smallest square holding every intersection of every result, as the doc comment says | low, not executed: the unit test at layout.test.ts:37-68 expects the code's box, so the comment may be what is wrong | LayoutExamples.MinimalDataBoxNotTightest | GeometryBox.TightDataBoxIsSmallest |
