/**
  Quadrilateral vertex ordering and the trapezoid test of utils/tools.py.
  A vertex is an integer pixel coordinate. Python's `sorted` with a key is a
  stable sort; it is modelled by insertion sort and specified by
  `IsStableSortOf`, which determines the result uniquely.
 */
module Geometry {

  datatype Point = Point(x: int, y: int)

  /** The coordinate a sort key reads: `lambda p: p[0]` or `lambda p: p[1]`. */
  datatype Axis = X | Y

  function Coord(p: Point, a: Axis): int {
    match a
    case X => p.x
    case Y => p.y
  }

  predicate SortedOn(s: seq<Point>, a: Axis) {
    forall i, j :: 0 <= i < j < |s| ==> Coord(s[i], a) <= Coord(s[j], a)
  }

  /** The elements of `s` whose key is `c`, in their order in `s`. */
  function WithKey(s: seq<Point>, a: Axis, c: int): seq<Point> {
    if s == [] then []
    else (if Coord(s[0], a) == c then [s[0]] else []) + WithKey(s[1..], a, c)
  }

  /** `r` is what a stable sort of `s` on key `a` returns: ordered by the key,
      and for every key value the elements carrying it appear in `r` in the
      same order as in `s`. */
  ghost predicate IsStableSortOf(r: seq<Point>, s: seq<Point>, a: Axis) {
    SortedOn(r, a) && forall c :: WithKey(r, a, c) == WithKey(s, a, c)
  }

  lemma WithKeyCons(p: Point, s: seq<Point>, a: Axis, c: int)
    ensures WithKey([p] + s, a, c) == (if Coord(p, a) == c then [p] else []) + WithKey(s, a, c)
  {
    assert ([p] + s)[1..] == s;
  }

  lemma {:induction false} WithKeyMembers(s: seq<Point>, a: Axis, c: int, p: Point)
    requires p in WithKey(s, a, c)
    ensures p in s && Coord(p, a) == c
  {
    if s != [] && !(Coord(s[0], a) == c && p == s[0]) {
      WithKeyMembers(s[1..], a, c, p);
    }
  }

  lemma {:induction false} WithKeyOfMember(s: seq<Point>, a: Axis, i: int)
    requires 0 <= i < |s|
    ensures s[i] in WithKey(s, a, Coord(s[i], a))
  {
    if i > 0 {
      assert s[1..][i - 1] == s[i];
      WithKeyOfMember(s[1..], a, i - 1);
    }
  }

  /** Inserts `p` in front of the first element whose key is not smaller. */
  function Insert(p: Point, s: seq<Point>, a: Axis): (r: seq<Point>)
    ensures multiset(r) == multiset(s) + multiset{p}
  {
    if s == [] || Coord(p, a) <= Coord(s[0], a) then [p] + s
    else
      assert s == [s[0]] + s[1..];
      [s[0]] + Insert(p, s[1..], a)
  }

  lemma {:induction false} InsertMembers(p: Point, s: seq<Point>, a: Axis, q: Point)
    requires q in Insert(p, s, a)
    ensures q == p || q in s
  {
    if s != [] && Coord(p, a) > Coord(s[0], a) && q != s[0] {
      InsertMembers(p, s[1..], a, q);
    }
  }

  lemma {:induction false} InsertSorted(p: Point, s: seq<Point>, a: Axis)
    requires SortedOn(s, a)
    ensures SortedOn(Insert(p, s, a), a)
  {
    if s != [] && Coord(p, a) > Coord(s[0], a) {
      var rest := Insert(p, s[1..], a);
      InsertSorted(p, s[1..], a);
      var r := [s[0]] + rest;
      assert Insert(p, s, a) == r;
      forall i, j | 0 <= i < j < |r| ensures Coord(r[i], a) <= Coord(r[j], a) {
        if i == 0 {
          assert r[j] == rest[j - 1];
          InsertMembers(p, s[1..], a, r[j]);
        } else {
          assert r[i] == rest[i - 1] && r[j] == rest[j - 1];
        }
      }
    }
  }

  /** Among the elements with `p`'s key, `p` comes first: earlier-inserted
      equal elements stay behind it, which makes the sort stable. */
  lemma {:induction false} InsertWithKey(p: Point, s: seq<Point>, a: Axis, c: int)
    ensures WithKey(Insert(p, s, a), a, c) == (if Coord(p, a) == c then [p] else []) + WithKey(s, a, c)
  {
    if s == [] || Coord(p, a) <= Coord(s[0], a) {
      WithKeyCons(p, s, a, c);
    } else {
      var rest := Insert(p, s[1..], a);
      var k0 := if Coord(s[0], a) == c then [s[0]] else [];
      var kp := if Coord(p, a) == c then [p] else [];
      assert k0 == [] || kp == [];
      calc {
        WithKey(Insert(p, s, a), a, c);
        { assert Insert(p, s, a) == [s[0]] + rest; }
        WithKey([s[0]] + rest, a, c);
        { WithKeyCons(s[0], rest, a, c); }
        k0 + WithKey(rest, a, c);
        { InsertWithKey(p, s[1..], a, c); }
        k0 + (kp + WithKey(s[1..], a, c));
        kp + (k0 + WithKey(s[1..], a, c));
        { WithKeyCons(s[0], s[1..], a, c); assert [s[0]] + s[1..] == s; }
        kp + WithKey(s, a, c);
      }
    }
  }

  /** `sorted(s, key=...)` */
  function Sort(s: seq<Point>, a: Axis): (r: seq<Point>)
    ensures |r| == |s|
    ensures multiset(r) == multiset(s)
  {
    if s == [] then []
    else
      var r := Insert(s[0], Sort(s[1..], a), a);
      assert s == [s[0]] + s[1..];
      assert |r| == |multiset(r)|;
      r
  }

  lemma {:induction false} SortSorted(s: seq<Point>, a: Axis)
    ensures SortedOn(Sort(s, a), a)
  {
    if s != [] {
      SortSorted(s[1..], a);
      InsertSorted(s[0], Sort(s[1..], a), a);
    }
  }

  /** The model of `sorted` meets the stable-sort specification. */
  lemma {:induction false} SortIsStable(s: seq<Point>, a: Axis)
    ensures IsStableSortOf(Sort(s, a), s, a)
  {
    if s != [] {
      var t := Sort(s[1..], a);
      SortIsStable(s[1..], a);
      assert s == [s[0]] + s[1..];
      InsertSorted(s[0], t, a);
      forall c ensures WithKey(Sort(s, a), a, c) == WithKey(s, a, c) {
        InsertWithKey(s[0], t, a, c);
        WithKeyCons(s[0], s[1..], a, c);
      }
    }
  }

  lemma {:induction false} SortedHeadIsLeast(s: seq<Point>, a: Axis, q: Point)
    requires SortedOn(s, a) && q in s
    ensures Coord(s[0], a) <= Coord(q, a)
  {
    var k :| 0 <= k < |s| && s[k] == q;
    if k > 0 {
      assert Coord(s[0], a) <= Coord(s[k], a);
    }
  }

  /** Two key-sorted sequences that agree on every key group are equal: a
      stable sort has exactly one possible result. */
  lemma {:induction false} StableSortUnique(r1: seq<Point>, r2: seq<Point>, a: Axis)
    requires SortedOn(r1, a) && SortedOn(r2, a)
    requires forall c :: WithKey(r1, a, c) == WithKey(r2, a, c)
    ensures r1 == r2
  {
    if r1 == [] {
      if r2 != [] {
        WithKeyOfMember(r2, a, 0);
        assert false;
      }
    } else if r2 == [] {
      WithKeyOfMember(r1, a, 0);
      assert false;
    } else {
      var m1, m2 := Coord(r1[0], a), Coord(r2[0], a);
      WithKeyOfMember(r1, a, 0);
      WithKeyMembers(r2, a, m1, r1[0]);
      SortedHeadIsLeast(r2, a, r1[0]);
      WithKeyOfMember(r2, a, 0);
      WithKeyMembers(r1, a, m2, r2[0]);
      SortedHeadIsLeast(r1, a, r2[0]);
      assert r1 == [r1[0]] + r1[1..] && r2 == [r2[0]] + r2[1..];
      WithKeyCons(r1[0], r1[1..], a, m1);
      WithKeyCons(r2[0], r2[1..], a, m1);
      assert r1[0] == WithKey(r1, a, m1)[0] == WithKey(r2, a, m1)[0] == r2[0];
      forall c ensures WithKey(r1[1..], a, c) == WithKey(r2[1..], a, c) {
        WithKeyCons(r1[0], r1[1..], a, c);
        WithKeyCons(r2[0], r2[1..], a, c);
        var pre := if Coord(r1[0], a) == c then [r1[0]] else [];
        assert pre + WithKey(r1[1..], a, c) == pre + WithKey(r2[1..], a, c);
        assert WithKey(r1[1..], a, c) == (pre + WithKey(r1[1..], a, c))[|pre|..];
        assert WithKey(r2[1..], a, c) == (pre + WithKey(r2[1..], a, c))[|pre|..];
      }
      StableSortUnique(r1[1..], r2[1..], a);
    }
  }

  /** `sorted` is the one stable sort: any sequence satisfying the
      specification is the model's result. */
  lemma SortIsTheStableSort(r: seq<Point>, s: seq<Point>, a: Axis)
    requires IsStableSortOf(r, s, a)
    ensures r == Sort(s, a)
  {
    var t := Sort(s, a);
    SortIsStable(s, a);
    forall c ensures WithKey(r, a, c) == WithKey(t, a, c) { }
    StableSortUnique(r, t, a);
  }

  /** `sort_rectangle_vertices`: the four vertices as top-left, top-right,
      bottom-right, bottom-left. The two with the smallest y form the top
      edge, and each edge is ordered by x. Unpacking into two pairs fails
      for any other number of vertices, so exactly four are required. */
  function SortRectangleVertices(v: seq<Point>): (r: seq<Point>)
    requires |v| == 4
    ensures |r| == 4
    ensures multiset(r) == multiset(v)
    ensures forall i, j :: 0 <= i < 2 <= j < 4 ==> r[i].y <= r[j].y
    ensures r[0].x <= r[1].x && r[3].x <= r[2].x
  {
    var byY := Sort(v, Y);
    var top := Sort(byY[..2], X);
    var bottom := Sort(byY[2..], X);
    SortSorted(v, Y);
    SortSorted(byY[..2], X);
    SortSorted(byY[2..], X);
    AssembleQuad(v, byY, top, bottom);
    [top[0], top[1], bottom[1], bottom[0]]
  }

  /** Putting the two x-sorted pairs of a y-sorted quadruple together gives
      a permutation with the top pair above the bottom pair. */
  lemma AssembleQuad(v: seq<Point>, b: seq<Point>, top: seq<Point>, bottom: seq<Point>)
    requires |b| == 4 && |top| == 2 && |bottom| == 2
    requires multiset(b) == multiset(v) && SortedOn(b, Y)
    requires multiset(top) == multiset(b[..2]) && SortedOn(top, X)
    requires multiset(bottom) == multiset(b[2..]) && SortedOn(bottom, X)
    ensures var r := [top[0], top[1], bottom[1], bottom[0]];
      && multiset(r) == multiset(v)
      && (forall i, j :: 0 <= i < 2 <= j < 4 ==> r[i].y <= r[j].y)
      && r[0].x <= r[1].x && r[3].x <= r[2].x
  {
    var r := [top[0], top[1], bottom[1], bottom[0]];
    QuadPermutation(v, b, top, bottom);
    assert Coord(top[0], X) <= Coord(top[1], X);
    assert Coord(bottom[0], X) <= Coord(bottom[1], X);
    forall i, j | 0 <= i < 2 <= j < 4 ensures r[i].y <= r[j].y {
      HalfMember(r[i], top, b[..2]);
      HalfMember(r[j], bottom, b[2..]);
      assert b[..2][0] == b[0] && b[..2][1] == b[1];
      assert b[2..][0] == b[2] && b[2..][1] == b[3];
      assert Coord(b[0], Y) <= Coord(b[2], Y) && Coord(b[0], Y) <= Coord(b[3], Y);
      assert Coord(b[1], Y) <= Coord(b[2], Y) && Coord(b[1], Y) <= Coord(b[3], Y);
    }
  }

  /** A point of a pair with the same elements as `h` is one of `h`'s two
      points. */
  lemma HalfMember(q: Point, pair: seq<Point>, h: seq<Point>)
    requires |pair| == 2 && |h| == 2 && multiset(pair) == multiset(h)
    requires q == pair[0] || q == pair[1]
    ensures q == h[0] || q == h[1]
  {
    assert q in multiset(pair);
    assert q in h;
  }

  /** The four corners listed as top-left, top-right, bottom-right,
      bottom-left are the original vertices. */
  lemma QuadPermutation(v: seq<Point>, b: seq<Point>, top: seq<Point>, bottom: seq<Point>)
    requires |b| == 4 && |top| == 2 && |bottom| == 2
    requires multiset(b) == multiset(v)
    requires multiset(top) == multiset(b[..2])
    requires multiset(bottom) == multiset(b[2..])
    ensures multiset([top[0], top[1], bottom[1], bottom[0]]) == multiset(v)
  {
    var r := [top[0], top[1], bottom[1], bottom[0]];
    assert r == top + [bottom[1], bottom[0]];
    assert bottom == [bottom[0], bottom[1]];
    assert multiset([bottom[1], bottom[0]]) == multiset(bottom);
    assert b == b[..2] + b[2..];
  }

  /** Sorting two elements swaps them exactly when the second key is smaller. */
  lemma SortPair(s: seq<Point>, a: Axis)
    requires |s| == 2
    ensures Sort(s, a) == if Coord(s[1], a) < Coord(s[0], a) then [s[1], s[0]] else s
  {
    assert s[1..][1..] == [];
    assert Sort(s[1..], a) == [s[1]];
    assert Sort(s, a) == Insert(s[0], [s[1]], a);
    if Coord(s[1], a) < Coord(s[0], a) {
      assert [s[1]][1..] == [];
      assert Insert(s[0], [s[1]], a) == [s[1]] + Insert(s[0], [], a);
    } else {
      assert s == [s[0]] + [s[1]];
    }
  }

  /** The result is the one Python's stable `sorted` calls produce: whatever
      sequences meet the stable-sort specification at each of the three
      sorts, they assemble into `SortRectangleVertices(v)`. So vertices with
      equal keys keep their input order. */
  lemma SortRectangleVerticesIsStable(v: seq<Point>, byY: seq<Point>, top: seq<Point>, bottom: seq<Point>)
    requires |v| == 4
    requires IsStableSortOf(byY, v, Y) && |byY| == 4
    requires IsStableSortOf(top, byY[..2], X) && IsStableSortOf(bottom, byY[2..], X)
    requires |top| == 2 && |bottom| == 2
    ensures SortRectangleVertices(v) == [top[0], top[1], bottom[1], bottom[0]]
  {
    SortIsTheStableSort(byY, v, Y);
    SortIsTheStableSort(top, byY[..2], X);
    SortIsTheStableSort(bottom, byY[2..], X);
  }

  /** `is_trapezoid`: the top edge (vertices 0 and 1) is strictly narrower
      than the bottom edge (vertices 3 and 2). */
  predicate IsTrapezoid(v: seq<Point>)
    requires |v| >= 4
  {
    Abs(v[1].x - v[0].x) < Abs(v[2].x - v[3].x)
  }

  function Abs(n: int): (r: nat)
    ensures r == n || r == -n
  {
    if n < 0 then -n else n
  }

  /** On vertices ordered as `SortRectangleVertices` orders them, the
      absolute values can be dropped: the test compares the two edge lengths
      along x directly, so equal widths are never a trapezoid. */
  lemma TrapezoidOfOrderedVertices(r: seq<Point>)
    requires |r| == 4 && r[0].x <= r[1].x && r[3].x <= r[2].x
    ensures IsTrapezoid(r) <==> r[1].x - r[0].x < r[2].x - r[3].x
  {
  }
}
