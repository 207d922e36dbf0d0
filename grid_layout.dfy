/** The grid and label arithmetic of the layout module (src/data/layout.ts:167-211):
    the size of the grid of spot diagrams, where a diagram's title goes and how
    large its font is. */
module GridLayout {
  import opened Types
  import opened GeometryBox

  /** `calcNumRowsAndCols`: one row per field spec and one column per wavelength. */
  function CalcNumRowsAndCols(wavelengths: seq<SystemSpec>, fieldSpecs: seq<FieldSpec>): (grid: (nat, nat))
    ensures grid.0 == |fieldSpecs| && grid.1 == |wavelengths|
  {
    (|fieldSpecs|, |wavelengths|)
  }

  /** `titlePosition`: the title is centred horizontally on the box and sits
      `titleOffset` below its minimum y. */
  function TitlePosition(box: BoundingBox, titleOffset: real): (center: (real, real))
    ensures center.0 - box.minX == box.MaxX() - center.0
    ensures center.1 - box.minY == titleOffset
  {
    (box.minX + box.width / 2.0, box.minY + titleOffset)
  }

  /** The title's horizontal centre is the box's centre, so padding the box
      leaves it where it was. */
  lemma TitleCentreSurvivesPadding(box: BoundingBox, padding: real, titleOffset: real)
    ensures TitlePosition(PadBox(box, padding), titleOffset).0 == TitlePosition(box, titleOffset).0
  {
    var padded := PadBox(box, padding);
    assert padded.minX + padded.width / 2.0 == box.minX + box.width / 2.0;
  }

  /** `fontSize`: `fontSizeFraction` times the box's diagonal. `Math.sqrt` is not
      modelled: the caller passes the diagonal, a non-negative square root of
      width² + height². */
  function FontSize(box: BoundingBox, fontSizeFraction: real, diagonal: real): (size: real)
    requires diagonal >= 0.0
    requires diagonal * diagonal == box.width * box.width + box.height * box.height
    ensures size * size == fontSizeFraction * fontSizeFraction *
                           (box.width * box.width + box.height * box.height)
    ensures fontSizeFraction >= 0.0 ==> size >= 0.0
  {
    fontSizeFraction * diagonal
  }

  /** A non-negative square root is unique, so the size does not depend on how the
      diagonal was obtained. */
  lemma {:induction false} DiagonalUnique(box: BoundingBox, d1: real, d2: real)
    requires d1 >= 0.0 && d2 >= 0.0
    requires d1 * d1 == box.width * box.width + box.height * box.height
    requires d2 * d2 == box.width * box.width + box.height * box.height
    ensures d1 == d2
  {
    if d1 < d2 {
      SquareGrows(d1, d2);
    } else if d2 < d1 {
      SquareGrows(d2, d1);
    }
  }

  /** Squaring is strictly increasing on the non-negative reals. */
  lemma SquareGrows(a: real, b: real)
    requires 0.0 <= a < b
    ensures a * a < b * b
  {
    calc {
      a * a;
    <= a * b;
    <  b * b;
    }
  }

  /** Padding a box by `padding` scales its diagonal, and so its title's font size,
      by 1 + 2 * padding. */
  lemma FontSizeOfPaddedBox(box: BoundingBox, fontSizeFraction: real, diagonal: real, padding: real)
    requires diagonal >= 0.0
    requires diagonal * diagonal == box.width * box.width + box.height * box.height
    requires padding >= 0.0
    ensures var padded := PadBox(box, padding);
      var scaled := (1.0 + 2.0 * padding) * diagonal;
      scaled * scaled == padded.width * padded.width + padded.height * padded.height &&
      FontSize(padded, fontSizeFraction, scaled) == (1.0 + 2.0 * padding) * FontSize(box, fontSizeFraction, diagonal)
  {
    var s := 1.0 + 2.0 * padding;
    var padded := PadBox(box, padding);
    assert padded.width == s * box.width && padded.height == s * box.height;
    calc {
      (s * diagonal) * (s * diagonal);
      s * s * (diagonal * diagonal);
      s * s * (box.width * box.width + box.height * box.height);
      (s * box.width) * (s * box.width) + (s * box.height) * (s * box.height);
    }
  }
}
