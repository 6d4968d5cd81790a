/** The default methods of the `GridLike` trait. They depend on a grid only through its
    size, so they are functions of the size here. */
module GridLike {
  import opened Ints
  import opened Vec2
  import opened Wrappers
  import Size2d
  import GridPoint
  import Axes

  /** `in_bounds`: the point is component-wise at least zero and below the size. */
  function InBounds(size: UVec2, p: IVec2): (r: bool)
    ensures r == GridPoint.IsValid(p, size)
    ensures r ==> 0 <= p.x < size.x <= I32_MAX && 0 <= p.y < size.y <= I32_MAX
    ensures size.x <= I32_MAX && size.y <= I32_MAX ==>
              (r <==> 0 <= p.x < size.x && 0 <= p.y < size.y)
  {
    var pos := GridPoint.AsIVec2(p);
    pos.CmpGe(ZERO).All() && pos.CmpLt(Size2d.AsIVec2(size)).All()
  }

  /** `get_idx`: the row-major index of a point, with no bounds check. */
  function GetIdx(size: UVec2, p: IVec2): (r: int)
    ensures 0 <= p.x < size.x ==> r / size.x == p.y && r % size.x == p.x
  {
    GridPoint.AsIndex(p, size.x)
  }

  /** `try_idx`: the index of an in-bounds point, or nothing. */
  function TryIdx(size: UVec2, p: IVec2): (r: Option<int>)
    ensures r.Some? <==> InBounds(size, p)
    ensures r.Some? ==> r.value == GetIdx(size, p)
    ensures r.Some? ==> 0 <= r.value < size.x * size.y
  {
    if InBounds(size, p) then
      GridPoint.AsIndexInRange(p, size);
      Some(GetIdx(size, p))
    else
      None
  }

  /** `index_to_pt`: the point at a row-major index. Both coordinates go through a
      `usize` to `i32` cast, which is exact while the row number fits in `i32`. */
  function IndexToPt(size: UVec2, idx: nat): (r: IVec2)
    requires size.x > 0
    ensures size.x <= I32_MAX && idx / size.x <= I32_MAX ==>
              r == IVec2(idx % size.x, idx / size.x) && 0 <= r.x < size.x && GetIdx(size, r) == idx
  {
    var x := idx % size.x;
    var y := idx / size.x;
    IVec2(UsizeAsI32(x), UsizeAsI32(y))
  }

  /** `index_to_pt` inverts `get_idx` on in-bounds points. */
  lemma IndexToPtGetIdx(size: UVec2, p: IVec2)
    requires 0 < size.x <= I32_MAX && size.y <= I32_MAX && InBounds(size, p)
    ensures GetIdx(size, p) >= 0 && IndexToPt(size, GetIdx(size, p)) == p
  {
    GridPoint.AsIndexInRange(p, size);
  }

  /** `try_index_to_pt` as written: the index is split into `(x, y)` as `usize`s, and the
      tuple's `GridPoint` implementation casts both to `i32` before the bounds test. */
  function TryIndexToPt(size: UVec2, idx: nat): (r: Option<IVec2>)
    requires size.x > 0
    ensures r.Some? ==> InBounds(size, r.value)
    ensures size.x <= I32_MAX && idx / size.x <= I32_MAX ==>
              r == (if InBounds(size, IndexToPt(size, idx)) then Some(IndexToPt(size, idx)) else None)
  {
    var w := size.x;
    var x := idx % w;
    var y := idx / w;
    var t := GridPoint.FromTuple((UsizeAsI32(x), UsizeAsI32(y)));
    if InBounds(size, t) then Some(GridPoint.AsIVec2(t)) else None
  }

  /** For indices whose row fits in `i32`, `try_index_to_pt` finds a point exactly for the
      indices below `width * height`. */
  lemma TryIndexToPtInRange(size: UVec2, idx: nat)
    requires 0 < size.x <= I32_MAX && size.y <= I32_MAX && idx / size.x <= I32_MAX
    ensures TryIndexToPt(size, idx).Some? <==> idx < size.x * size.y
  {
    IndexBelowCount(idx, size.x, size.y);
    DivModBounds(idx, size.x);
    var p := IndexToPt(size, idx);
    assert p == IVec2(idx % size.x, idx / size.x);
    assert InBounds(size, p) <==> idx / size.x < size.y;
  }

  /** The counterexample to `try_index_to_pt` as written: on a 1x1 grid the index `2^32`
      is out of range, but its row `2^32` wraps to `0` in the cast and the index is
      accepted as the point `(0, 0)`. */
  lemma TryIndexToPtWraps()
    ensures 0x1_0000_0000 >= Size2d.Count(UVec2(1, 1))
    ensures TryIndexToPt(UVec2(1, 1), 0x1_0000_0000) == Some(IVec2(0, 0))
  {
  }

  /** `try_index_to_pt` as evidently intended: the index is tested against the grid's
      length before it is split, so no cast can bring an out-of-range index back. */
  function TryIndexToPtChecked(size: UVec2, idx: nat): (r: Option<IVec2>)
    requires size.x > 0
  {
    if idx < size.x * size.y then Some(IndexToPt(size, idx)) else None
  }

  /** The corrected lookup accepts exactly the indices of the grid, returns their point,
      and agrees with the written one wherever the row fits in `i32`. */
  lemma TryIndexToPtCheckedCorrect(size: UVec2, idx: nat)
    requires 0 < size.x <= I32_MAX && size.y <= I32_MAX
    ensures TryIndexToPtChecked(size, idx).Some? <==> idx < size.x * size.y
    ensures TryIndexToPtChecked(size, idx).Some? ==>
              var p := TryIndexToPtChecked(size, idx).value;
              InBounds(size, p) && GetIdx(size, p) == idx
    ensures idx / size.x <= I32_MAX ==> TryIndexToPtChecked(size, idx) == TryIndexToPt(size, idx)
  {
    IndexBelowCount(idx, size.x, size.y);
    if idx / size.x <= I32_MAX {
      TryIndexToPtInRange(size, idx);
    }
  }

  /** One end of a `RangeBounds<usize>`. */
  datatype Bound = Included(n: nat) | Excluded(n: nat) | Unbounded

  /** A range given by its two bounds, as `RangeBounds` exposes it. */
  datatype Range = Range(start: Bound, end: Bound)

  /** `range_to_start_end`: the range as a first index and a last index. An unbounded end
      becomes the extent along `axis`, which callers treat as exclusive. An excluded end
      of `0` underflows `usize` and panics, so it is excluded here. */
  function RangeToStartEnd(size: UVec2, range: Range, axis: Axes.Axis): (r: (nat, nat))
    requires range.end.Excluded? ==> range.end.n > 0
    ensures r.0 == (if range.start.Unbounded? then 0 else range.start.n)
    ensures range.end.Included? ==> r.1 == range.end.n
    ensures range.end.Excluded? ==> r.1 + 1 == range.end.n
    ensures range.end.Unbounded? ==> r.1 == axis.Size(size)
  {
    var start := match range.start
      case Included(s) => s
      case Excluded(s) => s
      case Unbounded => 0;
    var end := match range.end
      case Included(e) => e
      case Excluded(e) => e - 1
      case Unbounded => axis.Size(size) as nat;
    (start, end)
  }

  /** What `range_to_start_end` gives for each bound: both kinds of start bound give their
      value, an unbounded start gives `0`; an included end gives its value, an excluded end
      the value before it, an unbounded end the extent of the axis. */
  lemma RangeToStartEndBounds(size: UVec2, axis: Axes.Axis, a: nat, b: nat)
    ensures RangeToStartEnd(size, Range(Included(a), Included(b)), axis) == (a, b)
    ensures RangeToStartEnd(size, Range(Excluded(a), Included(b)), axis) == (a, b)
    ensures b > 0 ==> RangeToStartEnd(size, Range(Included(a), Excluded(b)), axis) == (a, b - 1)
    ensures RangeToStartEnd(size, Range(Included(a), Unbounded), axis) == (a, axis.Size(size))
    ensures RangeToStartEnd(size, Range(Unbounded, Unbounded), axis) == (0, axis.Size(size))
    ensures RangeToStartEnd(size, Range(Unbounded, Included(b)), axis).0 == 0
  {
  }
}
