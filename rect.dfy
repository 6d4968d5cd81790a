/** Integer rectangle geometry: `Rect`, an axis-aligned rectangle stored as its minimum
    and maximum corners. The corners' generic `Size2d`/`GridPoint` arguments are taken as
    `IVec2`s, whose `as_ivec2` is the identity on `i32` values. */
module Rects {
  import opened Ints
  import opened Vec2

  /** `Rect`: nothing enforces `min <= max`; a rectangle whose corners are not ordered
      is simply empty. */
  datatype Rect = Rect(min: IVec2, max: IVec2) {

    /** The corners are ordered, as the constructors' callers are asked to keep them. */
    predicate Ordered()
    {
      min.x <= max.x && min.y <= max.y
    }

    /** `width`: `max.x - min.x`. */
    function Width(): (r: int)
      ensures min.x + r == max.x
    {
      max.x - min.x
    }

    /** `height`: `max.y - min.y`. */
    function Height(): (r: int)
      ensures min.y + r == max.y
    {
      max.y - min.y
    }

    /** `size`: `max - min`, the width and the height. */
    function Size(): (r: IVec2)
      ensures r == IVec2(Width(), Height())
      ensures min.Add(r) == max
    {
      max.Sub(min)
    }

    /** `half_size`: the size halved with truncating division, so each half is the exact
        half rounded toward zero. */
    function HalfSize(): (r: IVec2)
      ensures Halves(r.x, Width()) && Halves(r.y, Height())
    {
      Halve(Width());
      Halve(Height());
      Size().DivScalar(2)
    }

    /** `is_empty`: some coordinate of `min` is at least that of `max`, that is, the
        rectangle has no positive width or no positive height. */
    function IsEmpty(): (r: bool)
      ensures r <==> Width() <= 0 || Height() <= 0
    {
      min.CmpGe(max).Any()
    }

    /** `center`: `(min + max) / 2` with truncating division. For ordered corners it lies
        between them, and twice it is the corner sum rounded toward zero. */
    function Center(): (r: IVec2)
      ensures Halves(r.x, min.x + max.x) && Halves(r.y, min.y + max.y)
      ensures Ordered() ==> min.x <= r.x <= max.x && min.y <= r.y <= max.y
    {
      Halve(min.x + max.x);
      Halve(min.y + max.y);
      min.Add(max).DivScalar(2)
    }

    /** `contains`: the point lies between the corners, both edges included. */
    function Contains(p: IVec2): (r: bool)
      ensures r <==> min.x <= p.x <= max.x && min.y <= p.y <= max.y
    {
      p.CmpGe(min).And(p.CmpLe(max)).All()
    }

    /** `intersects`: the two closed ranges overlap on both axes. For ordered rectangles
        that is the case exactly when the lower corner of the overlap, the larger of the
        two `min` corners in each component, lies in both. */
    function Intersects(o: Rect): (r: bool)
      ensures Ordered() && o.Ordered() ==>
                var c := IVec2(MaxInt(min.x, o.min.x), MaxInt(min.y, o.min.y));
                (r <==> Contains(c) && o.Contains(c))
    {
      min.x <= o.max.x && max.x >= o.min.x && min.y <= o.max.y && max.y >= o.min.y
    }

    /** `point_set`: the points of the half-open region `[min.x, max.x) x [min.y, max.y)`,
        collected row by row, so unlike `contains` the max edges are left out. */
    method PointSet() returns (result: set<IVec2>)
      ensures forall p :: p in result <==> min.x <= p.x < max.x && min.y <= p.y < max.y
    {
      result := {};
      var y := min.y;
      while y < max.y
        invariant min.y <= y && (y <= max.y || y == min.y)
        invariant forall p :: p in result <==> min.x <= p.x < max.x && min.y <= p.y < y
      {
        var x := min.x;
        while x < max.x
          invariant min.x <= x && (x <= max.x || x == min.x)
          invariant forall p :: p in result <==>
                      min.x <= p.x < max.x && (min.y <= p.y < y || (p.y == y && p.x < x))
        {
          result := result + {IVec2(x, y)};
          x := x + 1;
        }
        y := y + 1;
      }
    }
  }

  /** `h` is `a / 2` rounded toward zero: `a` is twice `h` plus a remainder of at most one
      in magnitude, with the sign of `a`. */
  predicate Halves(h: int, a: int)
  {
    (a >= 0 ==> 2 * h <= a <= 2 * h + 1) && (a < 0 ==> 2 * h - 1 <= a <= 2 * h)
  }

  lemma Halve(a: int)
    ensures Halves(TDiv(a, 2), a)
  {
    TruncatingDivision(a, 2);
  }

  /** `new`: the top corner and the far corner `top + size`, so the size is the one
      given. */
  function New(top: IVec2, size: IVec2): (r: Rect)
    ensures r.min == top && r.Size() == size
    ensures r.Width() == size.x && r.Height() == size.y
  {
    FromCorners(top, top.Add(size))
  }

  /** `from_corners` as written: the two points are stored as `min` and `max` as they
      come, with no reordering. */
  function FromCorners(a: IVec2, b: IVec2): (r: Rect)
    ensures r.min == a && r.max == b
    ensures r.Ordered() <==> a.x <= b.x && a.y <= b.y
  {
    Rect(a, b)
  }

  /** `from_corners` as its documentation describes it: any two opposite corners, put
      in order. */
  function FromOppositeCorners(a: IVec2, b: IVec2): (r: Rect)
    ensures r.Ordered() && r.Contains(a) && r.Contains(b)
    ensures forall p :: r.Contains(p) <==>
              Between(a.x, p.x, b.x) && Between(a.y, p.y, b.y)
    ensures a.x <= b.x && a.y <= b.y ==> r == FromCorners(a, b)
  {
    Rect(IVec2(MinInt(a.x, b.x), MinInt(a.y, b.y)), IVec2(MaxInt(a.x, b.x), MaxInt(a.y, b.y)))
  }

  function MinInt(a: int, b: int): int { if a <= b then a else b }
  function MaxInt(a: int, b: int): int { if a <= b then b else a }

  /** `v` lies between `a` and `b`, in whichever order they come. */
  predicate Between(a: int, v: int, b: int)
  {
    (a <= v <= b) || (b <= v <= a)
  }

  /** The counterexample to `from_corners` as written: given the opposite corners
      `(10, 10)` and `(0, 0)` it yields an empty rectangle containing neither, where the
      ordered one contains both. */
  lemma FromCornersUnordered()
    ensures FromCorners(IVec2(10, 10), IVec2(0, 0)).IsEmpty()
    ensures !FromCorners(IVec2(10, 10), IVec2(0, 0)).Contains(IVec2(5, 5))
    ensures !FromCorners(IVec2(10, 10), IVec2(0, 0)).Contains(IVec2(10, 10))
    ensures !FromCorners(IVec2(10, 10), IVec2(0, 0)).Contains(IVec2(0, 0))
    ensures FromOppositeCorners(IVec2(10, 10), IVec2(0, 0)) == Rect(IVec2(0, 0), IVec2(10, 10))
    ensures FromOppositeCorners(IVec2(10, 10), IVec2(0, 0)).Contains(IVec2(5, 5))
  {
  }

  /** `from_center_half_size`: the corners `origin - half` and `origin + half`, which
      are ordered and centred on the origin. A negative half-size panics. */
  function FromCenterHalfSize(origin: IVec2, half: IVec2): (r: Rect)
    requires half.CmpGe(ZERO).All()
    ensures r.Ordered()
    ensures r.Size() == IVec2(2 * half.x, 2 * half.y)
    ensures r.Center() == origin
  {
    var r := Rect(origin.Sub(half), origin.Add(half));
    TDivDouble(origin.x);
    TDivDouble(origin.y);
    r
  }

  /** `from_center_size`: the size is halved (rounding down) and the half-size used, so
      an odd extent loses one. A negative size panics. */
  function FromCenterSize(origin: IVec2, size: IVec2): (r: Rect)
    requires size.CmpGe(ZERO).All()
    ensures r.Ordered() && r.Center() == origin
    ensures r.Width() <= size.x <= r.Width() + 1 && r.Height() <= size.y <= r.Height() + 1
  {
    var half := size.DivScalar(2);
    Halve(size.x);
    Halve(size.y);
    FromCenterHalfSize(origin, half)
  }

  lemma TDivDouble(a: int)
    ensures TDiv(a + a, 2) == a
  {
  }

  /** `intersects` is symmetric. */
  lemma IntersectsSymmetric(a: Rect, b: Rect)
    ensures a.Intersects(b) <==> b.Intersects(a)
  {
  }

  /** For ordered rectangles `intersects` holds exactly when some point lies in both,
      edges included. */
  lemma IntersectsCommonPoint(a: Rect, b: Rect)
    requires a.Ordered() && b.Ordered()
    ensures a.Intersects(b) <==> exists p :: a.Contains(p) && b.Contains(p)
  {
    if a.Intersects(b) {
      var p := IVec2(MaxInt(a.min.x, b.min.x), MaxInt(a.min.y, b.min.y));
      assert a.Contains(p) && b.Contains(p);
    }
  }

  /** A rectangle contains every point of its point set, and for a non-empty one also
      its max corner, which the point set leaves out. */
  lemma PointSetWithinContains(r: Rect, s: set<IVec2>, p: IVec2)
    requires forall q :: q in s <==> r.min.x <= q.x < r.max.x && r.min.y <= q.y < r.max.y
    ensures p in s ==> r.Contains(p)
    ensures !r.IsEmpty() ==> r.Contains(r.max) && r.max !in s
  {
  }

  /** The first examples of the library's tests: `new([0,0],[10,10])` is 10 by 10 and
      centred at `(5,5)`. */
  lemma RectDimensionExamples()
    ensures var r := New(IVec2(0, 0), IVec2(10, 10));
            r.Width() == 10 && r.Height() == 10 && r.Center() == IVec2(5, 5)
  {
    var r := New(IVec2(0, 0), IVec2(10, 10));
    assert r == Rect(IVec2(0, 0), IVec2(10, 10));
    assert TDiv(10, 2) == 5;
  }

  /** The containment examples of the library's tests: `new([0,0],[10,10])` contains
      `(5,5)` but not `(100,100)`. */
  lemma RectContainmentExamples()
    ensures var r := New(IVec2(0, 0), IVec2(10, 10));
            r.Contains(IVec2(5, 5)) && !r.Contains(IVec2(100, 100))
  {
    assert New(IVec2(0, 0), IVec2(10, 10)) == Rect(IVec2(0, 0), IVec2(10, 10));
  }

  /** The first intersection example of the library's tests: `new([0,0],[10,10])` meets
      `new([5,5],[10,10])`. */
  lemma RectIntersectionExample()
    ensures New(IVec2(0, 0), IVec2(10, 10)).Intersects(New(IVec2(5, 5), IVec2(10, 10)))
  {
    var r, a := New(IVec2(0, 0), IVec2(10, 10)), New(IVec2(5, 5), IVec2(10, 10));
    assert r.min == IVec2(0, 0) && r.max == IVec2(10, 10);
    assert a.min == IVec2(5, 5) && a.max == IVec2(15, 15);
  }

  /** The second intersection example of the library's tests: `new([0,0],[10,10])` does
      not meet `new([100,100],[5,5])`. */
  lemma RectDisjointExample()
    ensures !New(IVec2(0, 0), IVec2(10, 10)).Intersects(New(IVec2(100, 100), IVec2(5, 5)))
  {
    var r, b := New(IVec2(0, 0), IVec2(10, 10)), New(IVec2(100, 100), IVec2(5, 5));
    assert r.max == IVec2(10, 10);
    assert b.min == IVec2(100, 100);
  }

  /** `point_set` of `new([0,0],[1,1])` holds `(0,0)` and none of the other corners. */
  method PointSetExample() returns (s: set<IVec2>)
    ensures IVec2(0, 0) in s
    ensures IVec2(1, 0) !in s && IVec2(0, 1) !in s && IVec2(1, 1) !in s
  {
    s := New(IVec2(0, 0), IVec2(1, 1)).PointSet();
  }
}
