/** `get_zero_or_not` and `expand_coordinates`: growing a box by a margin
    while keeping its top-left corner inside the image. */
module Boxes {

  /** A box as two corners `(x1, y1)` (top-left) and `(x2, y2)`. */
  datatype Box = Box(x1: int, y1: int, x2: int, y2: int)

  /** `get_zero_or_not`: negative values become 0. The result is the
      smallest non-negative number not below `v`. */
  function ZeroOrNot(v: int): (r: int)
    ensures r >= 0 && r >= v
    ensures r == v || r == 0
  {
    if v < 0 then 0 else v
  }

  lemma ZeroOrNotIdempotent(v: int)
    ensures ZeroOrNot(ZeroOrNot(v)) == ZeroOrNot(v)
  {
  }

  /** `expand_coordinates`: moves each corner `n` pixels outward, clamping
      the top-left corner at 0. */
  function ExpandCoordinates(b: Box, n: int): (r: Box)
    ensures r.x1 >= 0 && r.y1 >= 0
    ensures r.x1 == ZeroOrNot(b.x1 - n) && r.y1 == ZeroOrNot(b.y1 - n)
    ensures r.x2 == b.x2 + n && r.y2 == b.y2 + n
  {
    Box(ZeroOrNot(b.x1 - n), ZeroOrNot(b.y1 - n), b.x2 + n, b.y2 + n)
  }

  predicate Contains(outer: Box, inner: Box) {
    outer.x1 <= inner.x1 && outer.y1 <= inner.y1 && inner.x2 <= outer.x2 && inner.y2 <= outer.y2
  }

  /** With a non-negative margin, a box inside the image (top-left corner
      not negative) is inside its expansion, and the clamping only ever
      cuts the margin, never the box. */
  lemma ExpandContains(b: Box, n: int)
    requires n >= 0 && b.x1 >= 0 && b.y1 >= 0
    ensures Contains(ExpandCoordinates(b, n), b)
    ensures b.x1 - n <= ExpandCoordinates(b, n).x1 && b.y1 - n <= ExpandCoordinates(b, n).y1
  {
  }

  /** Expanding by `m` and then by `n` (both non-negative) is expanding by
      `m + n`: the clamp at 0 does not depend on when it is applied. */
  lemma ExpandCompose(b: Box, m: int, n: int)
    requires m >= 0 && n >= 0
    ensures ExpandCoordinates(ExpandCoordinates(b, m), n) == ExpandCoordinates(b, m + n)
  {
  }

  /** Expanding by 0 leaves a box with a non-negative top-left corner as it is. */
  lemma ExpandByZero(b: Box)
    requires b.x1 >= 0 && b.y1 >= 0
    ensures ExpandCoordinates(b, 0) == b
  {
  }
}
