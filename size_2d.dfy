/** The `Size2d` trait: anything with a `u32` width and height. The model takes the
    canonical size type `UVec2` (width `x`, height `y`); the trait's other implementations
    (arrays, tuples) only differ in how they store the two numbers. */
module Size2d {
  import opened Ints
  import opened Vec2

  /** `count` multiplies in `u32`, so it is defined only when the product fits. */
  predicate CountFits(s: UVec2) { s.x * s.y <= U32_MAX }

  /** `count`: the number of cells of a grid of this size. */
  function Count(s: UVec2): (r: nat)
    requires CountFits(s)
    ensures r <= U32_MAX
    ensures r == 0 <==> s.x == 0 || s.y == 0
  {
    s.x * s.y
  }

  /** `as_ivec2`: both extents cast to `i32`, exact below `2^31`. */
  function AsIVec2(s: UVec2): (r: IVec2)
    ensures I32_MIN <= r.x <= I32_MAX && I32_MIN <= r.y <= I32_MAX
    ensures s.x <= I32_MAX && s.y <= I32_MAX ==> r == IVec2(s.x, s.y)
  {
    IVec2(AsI32(s.x), AsI32(s.y))
  }

  /** `as_uvec2` goes through `as_ivec2` and casts back, which loses nothing. */
  function AsUVec2(s: UVec2): (r: UVec2)
    ensures r == s
  {
    var v := AsIVec2(s);
    AsU32AsI32(s.x);
    AsU32AsI32(s.y);
    UVec2(AsU32(v.x), AsU32(v.y))
  }

  /** `as_array`: the two extents as `[i32; 2]`. */
  function AsArray(s: UVec2): (r: seq<int>)
    ensures |r| == 2
    ensures s.x <= I32_MAX && s.y <= I32_MAX ==> r == [s.x, s.y]
  {
    var v := AsIVec2(s);
    [v.x, v.y]
  }

  /** `as_tuple`: the two extents as `(i32, i32)`. */
  function AsTuple(s: UVec2): (r: (int, int))
    ensures s.x <= I32_MAX && s.y <= I32_MAX ==> r == (s.x, s.y)
  {
    (AsI32(s.x), AsI32(s.y))
  }

  /** `as_uarray`: the two extents as `[usize; 2]`. */
  function AsUArray(s: UVec2): (r: seq<nat>)
    ensures r == [s.x, s.y]
  {
    [s.x as nat, s.y as nat]
  }

  /** `intersects`: both sizes cover at least one cell; positions play no part. */
  function Intersects(s: UVec2, o: UVec2): (r: bool)
    ensures r <==> s.x * s.y > 0 && o.x * o.y > 0
  {
    s.x > 0 && s.y > 0 && o.x > 0 && o.y > 0
  }

  /** `point_in_bounds`: the point lies in `[0, width) x [0, height)`. */
  function PointInBounds(s: UVec2, p: IVec2): (r: bool)
    ensures s.x <= I32_MAX && s.y <= I32_MAX ==> (r <==> 0 <= p.x < s.x && 0 <= p.y < s.y)
  {
    p.x >= 0 && p.y >= 0 && p.x < AsI32(s.x) && p.y < AsI32(s.y)
  }

  /** The points `PointInBounds` accepts, for a size below `2^31`. */
  ghost function InBoundsPoints(s: UVec2): set<IVec2>
  {
    set x: int, y: int | 0 <= x < s.x && 0 <= y < s.y :: IVec2(x, y)
  }

  /** Exactly `count` points are in bounds. */
  lemma InBoundsPointsCount(s: UVec2)
    requires CountFits(s) && s.x <= I32_MAX && s.y <= I32_MAX
    ensures forall p :: p in InBoundsPoints(s) <==> PointInBounds(s, p)
    ensures |InBoundsPoints(s)| == Count(s)
  {
    assert InBoundsPoints(s) == Block(s.x, s.y);
    BlockSize(s.x, s.y);
  }

  ghost function Row(w: nat, y: int): set<IVec2>
  {
    set x: int | 0 <= x < w :: IVec2(x, y)
  }

  ghost function Block(w: nat, h: nat): set<IVec2>
  {
    set x: int, y: int | 0 <= x < w && 0 <= y < h :: IVec2(x, y)
  }

  lemma {:induction false} RowSize(w: nat, y: int)
    ensures |Row(w, y)| == w
  {
    if w > 0 {
      RowSize(w - 1, y);
      assert Row(w, y) == Row(w - 1, y) + {IVec2(w - 1, y)};
    }
  }

  lemma {:induction false} BlockSize(w: nat, h: nat)
    ensures |Block(w, h)| == w * h
  {
    if h > 0 {
      BlockSize(w, h - 1);
      RowSize(w, h - 1);
      var lower, top := Block(w, h - 1), Row(w, h - 1);
      assert Block(w, h) == lower + top by {
        forall p | p in Block(w, h) ensures p in lower + top {
          if p.y < h - 1 {
            assert p in lower;
          } else {
            assert p in top;
          }
        }
      }
      assert lower * top == {} by {
        forall p | p in lower ensures p !in top { }
      }
      assert |lower + top| == |lower| + |top|;
      assert w * (h - 1) + w == w * h;
    }
  }
}
