/** The value types the layout, spec and ray modules exchange (src/types.ts).
    Every TypeScript `number` that measures something is a `real`; identifiers
    of wavelengths, fields and surfaces are `int`. */
module Types {

  /** An optional value, standing for a TypeScript property marked `?`. */
  datatype Option<+T> = None | Some(value: T)

  /** A labelled numeric specification of a ray trace, such as a wavelength. */
  datatype SystemSpec = SystemSpec(value: real, units: string)

  /** The closed union `'angle' | 'point source'` of a field specification. */
  datatype FieldKind = Angle | PointSource

  /** A field specification: a SystemSpec with a kind. */
  datatype FieldSpec = FieldSpec(value: real, units: string, kind: FieldKind)
  {
    /** The same spec seen as a SystemSpec, as structural typing lets callers pass it. */
    function AsSystemSpec(): SystemSpec {
      SystemSpec(value, units)
    }
  }

  /** The x and y coordinates of the intersections of a ray bundle with surfaces. */
  datatype RayIntersections = RayIntersections(x: seq<real>, y: seq<real>)

  /** One ray trace for a wavelength and a field, optionally at one surface. */
  datatype RayTraceResult = RayTraceResult(
    wavelengthId: int,
    fieldId: int,
    rayBundle: RayIntersections,
    chiefRay: RayIntersections,
    surfaceId: Option<int>)

  /** Tick marks of an axis: the snapped range, the step between ticks and the ticks. */
  datatype Ticks = Ticks(min: real, max: real, step: real, positions: seq<real>)

  /** The tuple `[minX, minY, width, height]` with its positions named. */
  datatype BoundingBox = BoundingBox(minX: real, minY: real, width: real, height: real)
  {
    function MaxX(): real { minX + width }
    function MaxY(): real { minY + height }

    /** True when the point (px, py) lies inside or on the edge of the box. */
    predicate ContainsPoint(px: real, py: real) {
      minX <= px <= MaxX() && minY <= py <= MaxY()
    }

    /** True when `inner` lies inside this box. */
    predicate ContainsBox(inner: BoundingBox) {
      minX <= inner.minX && inner.MaxX() <= MaxX() &&
      minY <= inner.minY && inner.MaxY() <= MaxY()
    }

    predicate IsSquare() { width == height }
  }
}
