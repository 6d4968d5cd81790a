/** The `GridPoint` trait: anything with `i32` coordinates `x` and `y`. The canonical
    point type is `IVec2`; tuples and two-element arrays implement the trait by reading
    their two components. */
module GridPoint {
  import opened Ints
  import opened Vec2
  import Size2d

  /** `GridPoint::new`: builds an `IVec2`. */
  function New(x: int, y: int): (r: IVec2)
    ensures r.x == x && r.y == y
  {
    IVec2(x, y)
  }

  /** The trait's `x()`/`y()` for a tuple `(x, y)`. */
  function FromTuple(t: (int, int)): (r: IVec2)
    ensures AsTuple(r) == t
  {
    IVec2(t.0, t.1)
  }

  /** The trait's `x()`/`y()` for an array `[x, y]`. */
  function FromArray(a: seq<int>): (r: IVec2)
    requires |a| == 2
    ensures AsArray(r) == a
  {
    IVec2(a[0], a[1])
  }

  /** `as_ivec2`: rebuilds the point from its coordinates. */
  function AsIVec2(p: IVec2): (r: IVec2)
    ensures r == p
  {
    New(p.x, p.y)
  }

  /** `as_array`: `[x, y]`. */
  function AsArray(p: IVec2): (r: seq<int>)
    ensures |r| == 2
    ensures New(r[0], r[1]) == p
  {
    var v := AsIVec2(p);
    [v.x, v.y]
  }

  /** `as_tuple`: `(x, y)`. */
  function AsTuple(p: IVec2): (r: (int, int))
    ensures New(r.0, r.1) == p
  {
    (p.x, p.y)
  }

  /** `as_uvec2`: both coordinates cast to `u32`; negative ones wrap around. */
  function AsUVec2(p: IVec2): (r: UVec2)
    requires I32_MIN <= p.x <= I32_MAX && I32_MIN <= p.y <= I32_MAX
    ensures p.x >= 0 && p.y >= 0 ==> r == UVec2(p.x, p.y)
  {
    var v := AsIVec2(p);
    UVec2(AsU32(v.x), AsU32(v.y))
  }

  /** `as_uarray`: both coordinates cast to `usize`; negative ones wrap around. */
  function AsUArray(p: IVec2): (r: seq<nat>)
    requires I32_MIN <= p.x <= I32_MAX && I32_MIN <= p.y <= I32_MAX
    ensures |r| == 2
    ensures p.x >= 0 && p.y >= 0 ==> r == [p.x, p.y]
  {
    [AsUsize(p.x), AsUsize(p.y)]
  }

  /** Every representation converts to and from `IVec2` without loss. */
  lemma ConversionsRoundTrip(p: IVec2, t: (int, int), a: seq<int>)
    requires |a| == 2
    ensures AsIVec2(p) == p
    ensures FromTuple(AsTuple(p)) == p && AsTuple(FromTuple(t)) == t
    ensures FromArray(AsArray(p)) == p && AsArray(FromArray(a)) == a
    ensures AsTuple(p) == (p.x, p.y) && AsArray(p) == [p.x, p.y]
  {
  }

  /** `as_index`: the row-major offset `y * width + x`, with no bounds check. The `usize`
      casts of negative coordinates are not modelled: the result is the plain integer. For
      `x` in `[0, width)` the index determines the point: dividing it by the width gives
      back `y`, the remainder gives back `x`. */
  function AsIndex(p: IVec2, width: nat): (r: int)
    ensures 0 <= p.x < width ==> r / width == p.y && r % width == p.x
  {
    var i := p.y * width + p.x;
    if 0 <= p.x < width then
      DivModUnique(i, width, p.y, p.x);
      i
    else
      i
  }

  /** `is_valid`: the point lies inside `size`, the extents being cast to `i32`. */
  function IsValid(p: IVec2, size: UVec2): (r: bool)
    ensures r ==> 0 <= p.x < size.x && 0 <= p.y < size.y && size.x <= I32_MAX && size.y <= I32_MAX
    ensures size.x <= I32_MAX && size.y <= I32_MAX ==>
              (r <==> p.x >= 0 && p.y >= 0 && p.x < size.x && p.y < size.y)
  {
    p.x >= 0 && p.y >= 0 && p.x < AsI32(size.x) && p.y < AsI32(size.y)
  }

  /** The size side and the point side of the bounds test agree exactly. */
  lemma PointInBoundsIsValid(s: UVec2, p: IVec2)
    ensures Size2d.PointInBounds(s, p) == IsValid(p, s)
  {
  }

  /** A valid point's index lies in `[0, width * height)`. */
  lemma AsIndexInRange(p: IVec2, s: UVec2)
    requires IsValid(p, s)
    ensures 0 <= AsIndex(p, s.x) < s.x * s.y
  {
    MulSucc(p.y, s.x);
    MulMonotone(p.y + 1, s.y, s.x);
    MulMonotone(0, p.y, s.x);
  }

  /** Distinct valid points have distinct indices. */
  lemma AsIndexInjective(p: IVec2, q: IVec2, s: UVec2)
    requires IsValid(p, s) && IsValid(q, s)
    requires p != q
    ensures AsIndex(p, s.x) != AsIndex(q, s.x)
  {
    assert AsIndex(p, s.x) / s.x == p.y && AsIndex(p, s.x) % s.x == p.x;
    assert AsIndex(q, s.x) / s.x == q.y && AsIndex(q, s.x) % s.x == q.x;
  }

  /** `normalize_part`: wraps a coordinate into `[0, size)` in the `i32` domain, by a
      truncating remainder followed by a correction of negative results. The result is in
      `[0, size)` and congruent to the input modulo `size`. */
  function NormalizePart(value: int, size: u32): (r: int)
    requires 0 < size <= I32_MAX
    ensures 0 <= r < size
    ensures (value - r) % size == 0
  {
    var v := TRem(value, AsI32(size));
    TruncatingDivision(value, size);
    var q := TDiv(value, size);
    if v < 0 then
      DivModUnique((q - 1) * size, size, q - 1, 0);
      v + AsI32(size)
    else
      DivModUnique(q * size, size, q, 0);
      v
  }

  /** `normalize_part` leaves a coordinate already in `[0, size)` unchanged. */
  lemma NormalizePartFixes(value: int, size: u32)
    requires 0 < size <= I32_MAX && 0 <= value < size
    ensures NormalizePart(value, size) == value
  {
    DivModUnique(value, size, 0, value);
    assert TDiv(value, size) == 0;
  }

  /** `normalize`: wraps both coordinates into the size (a torus). */
  function Normalize(p: IVec2, s: UVec2): (r: IVec2)
    requires 0 < s.x <= I32_MAX && 0 < s.y <= I32_MAX
    ensures IsValid(r, s)
  {
    IVec2(NormalizePart(p.x, s.x), NormalizePart(p.y, s.y))
  }

  /** Normalizing a valid point changes nothing, so normalizing is idempotent. */
  lemma NormalizeFixesValid(p: IVec2, s: UVec2)
    requires 0 < s.x <= I32_MAX && 0 < s.y <= I32_MAX
    ensures IsValid(p, s) ==> Normalize(p, s) == p
    ensures Normalize(Normalize(p, s), s) == Normalize(p, s)
  {
    var n := Normalize(p, s);
    NormalizePartFixes(n.x, s.x);
    NormalizePartFixes(n.y, s.y);
    if IsValid(p, s) {
      NormalizePartFixes(p.x, s.x);
      NormalizePartFixes(p.y, s.y);
    }
  }
}
