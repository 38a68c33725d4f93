/**
 * Core Graphics values as the widget uses them, over `real` in place of
 * CGFloat. A rectangle stores its origin and size exactly as assigned; the
 * read accessors standardise it the way CGRectGetMinX and friends do, so a
 * negative width still yields a well-ordered min/max pair.
 */
module Geometry {

  function Abs(a: real): real {
    if a < 0.0 then -a else a
  }

  function Min(a: real, b: real): real {
    if a <= b then a else b
  }

  function Max(a: real, b: real): real {
    if a >= b then a else b
  }

  datatype Size = Size(width: real, height: real)

  datatype Rect = Rect(x: real, y: real, width: real, height: real) {

    function MinX(): real { Min(x, x + width) }

    function MaxX(): real { Max(x, x + width) }

    function MinY(): real { Min(y, y + height) }

    function Width(): real { Abs(width) }

    function Height(): real { Abs(height) }

    /** True when the stored size is already non-negative (nothing to standardise). */
    predicate Standard() {
      width >= 0.0 && height >= 0.0
    }
  }

  const ZeroRect := Rect(0.0, 0.0, 0.0, 0.0)

  /** An affine transform restricted to the scalings the widget applies. */
  datatype Transform = Transform(sx: real, sy: real)

  const Identity := Transform(1.0, 1.0)

  function Uniform(v: real): Transform {
    Transform(v, v)
  }
}
