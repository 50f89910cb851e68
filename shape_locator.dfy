/**
  The decision logic of `get_shape_location_by_type` and
  `get_shape_location_by_color`. The OpenCV pipeline that produces contours
  (thresholding, edge detection, polygon approximation, bounding boxes,
  moments) is outside the model: each locator receives the contours as a
  list of records in the order OpenCV yields them.
 */
module ShapeLocator {
  import opened Wrappers
  import opened Geometry

  /** One contour as the shape locator sees it: the approximated polygon's
      corner points and its bounding rectangle. */
  datatype Contour = Contour(approx: seq<Point>, x: int, y: int, w: int, h: int)

  datatype Shape = Triangle | Square | Rectangle | Trapezoid | Hexagon | Circle | Star | Unknown

  /** The label the source compares against the requested type. */
  function Label(s: Shape): string {
    match s
    case Triangle => "三角形"
    case Square => "正方形"
    case Rectangle => "长方形"
    case Trapezoid => "梯形"
    case Hexagon => "六边形"
    case Circle => "圆形"
    case Star => "五角星"
    case Unknown => "未知"
  }

  /** Distinct shapes have distinct labels, so comparing labels is comparing
      shapes. */
  lemma LabelInjective(s: Shape, t: Shape)
    ensures Label(s) == Label(t) <==> s == t
  {
  }

  /** The corner-count classification. */
  function Classify(c: Contour): (s: Shape)
    ensures s == Triangle <==> |c.approx| == 3
    ensures s == Square <==> |c.approx| == 4 && c.w == c.h
    ensures s == Trapezoid <==>
      |c.approx| == 4 && c.w != c.h && IsTrapezoid(SortRectangleVertices(c.approx))
    ensures s == Rectangle <==>
      |c.approx| == 4 && c.w != c.h && !IsTrapezoid(SortRectangleVertices(c.approx))
    ensures s == Hexagon <==> |c.approx| == 6
    ensures s == Circle <==> |c.approx| == 8
    ensures s == Star <==> |c.approx| == 20
    ensures s == Unknown <==> |c.approx| !in {3, 4, 6, 8, 20}
  {
    var n := |c.approx|;
    if n == 3 then Triangle
    else if n == 4 then
      if c.w == c.h then Square
      else if IsTrapezoid(SortRectangleVertices(c.approx)) then Trapezoid
      else Rectangle
    else if n == 6 then Hexagon
    else if n == 8 then Circle
    else if n == 20 then Star
    else Unknown
  }

  /** A shape other than the three quadrilaterals depends on the corner
      count only; a quadrilateral with a square bounding box is a square
      whatever its corners. */
  lemma ClassifyByCountAlone(c: Contour, d: Contour)
    requires |c.approx| == |d.approx|
    requires |c.approx| != 4 || (c.w == c.h && d.w == d.h)
    ensures Classify(c) == Classify(d)
  {
  }

  /** The requested type names no shape: no contour matches it. */
  lemma UnknownRequestNeverMatches(c: Contour, request: string)
    requires forall s: Shape :: Label(s) != request
    ensures !Matches(c, request)
  {
  }

  predicate Matches(c: Contour, request: string) {
    Label(Classify(c)) == request
  }

  /** The bounding-box centre `(x + w // 2, y + h // 2)`, with Python's
      floor division. */
  function Center(c: Contour): (r: (int, int))
    ensures 2 * (r.0 - c.x) <= c.w < 2 * (r.0 - c.x) + 2
    ensures 2 * (r.1 - c.y) <= c.h < 2 * (r.1 - c.y) + 2
  {
    (c.x + FloorDiv2(c.w), c.y + FloorDiv2(c.h))
  }

  /** Python's `n // 2`: rounds toward negative infinity (Dafny's `/` does the
      same for a positive divisor). */
  function FloorDiv2(n: int): (q: int)
    ensures 2 * q <= n < 2 * q + 2
  {
    n / 2
  }

  /** `get_shape_location_by_type`: the centre of the first contour whose
      label is the requested one, or `None` when there is none. */
  method LocateByType(contours: seq<Contour>, request: string) returns (r: Option<(int, int)>)
    ensures r.None? <==> forall i :: 0 <= i < |contours| ==> !Matches(contours[i], request)
    ensures r.Some? ==> exists i :: (0 <= i < |contours| && Matches(contours[i], request) &&
      r.value == Center(contours[i]) &&
      forall j :: 0 <= j < i ==> !Matches(contours[j], request))
  {
    var i := 0;
    while i < |contours|
      invariant 0 <= i <= |contours|
      invariant forall j :: 0 <= j < i ==> !Matches(contours[j], request)
    {
      var c := contours[i];
      var shape := Classify(c);
      if Label(shape) == request {
        return Some(Center(c));
      }
      i := i + 1;
    }
    return None;
  }

  /** One colour-mask contour: `cv2.contourArea` and the moments
      `m00`, `m10`, `m01`. */
  datatype Region = Region(area: real, m00: real, m10: real, m01: real)

  /** Only regions larger than 100 square pixels with a non-zero zeroth
      moment give a centroid. */
  predicate Qualifies(g: Region) {
    g.area > 100.0 && g.m00 != 0.0
  }

  /** Python's `int(r)`: truncation toward zero. */
  function Truncate(r: real): (n: int)
    ensures r >= 0.0 ==> n as real <= r < n as real + 1.0
    ensures r < 0.0 ==> n as real - 1.0 < r <= n as real
  {
    if r >= 0.0 then r.Floor else -((-r).Floor)
  }

  /** The centroid `(int(m10 / m00), int(m01 / m00))`. */
  function Centroid(g: Region): (int, int)
    requires g.m00 != 0.0
  {
    (Truncate(g.m10 / g.m00), Truncate(g.m01 / g.m00))
  }

  /** `get_shape_location_by_color`: the centroid of the first qualifying
      region, or `None` when no region qualifies. */
  method LocateByColor(regions: seq<Region>) returns (r: Option<(int, int)>)
    ensures r.None? <==> forall i :: 0 <= i < |regions| ==> !Qualifies(regions[i])
    ensures r.Some? ==> exists i :: (0 <= i < |regions| && Qualifies(regions[i]) &&
      r.value == Centroid(regions[i]) &&
      forall j :: 0 <= j < i ==> !Qualifies(regions[j]))
  {
    var i := 0;
    while i < |regions|
      invariant 0 <= i <= |regions|
      invariant forall j :: 0 <= j < i ==> !Qualifies(regions[j])
    {
      var g := regions[i];
      if g.area > 100.0 {
        if g.m00 != 0.0 {
          return Some(Centroid(g));
        }
      }
      i := i + 1;
    }
    return None;
  }
}
