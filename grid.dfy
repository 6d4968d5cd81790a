/** The flat row-major grid backend `Grid<T>`: a size and a vector of exactly
    `width * height` cells, the cell of point `(x, y)` being the one at `y * width + x`. */
module FlatGrid {
  import opened Ints
  import opened Vec2
  import opened Wrappers
  import Size2d
  import GridPoint
  import GridLike
  import Axes
  import opened Slices
  import opened Generators

  /** The point visited at step `i` of the row-major walk over a grid of width `w`: rows
      from the first, each from left to right. */
  function RowMajorPoint(w: nat, i: nat): IVec2
    requires w > 0
  {
    IVec2(i % w, i / w)
  }

  /** The row-major walk visits every in-bounds point at the step of its index. */
  lemma RowMajorVisits(s: UVec2, p: IVec2)
    requires GridLike.InBounds(s, p)
    ensures s.x > 0 && 0 <= GridLike.GetIdx(s, p) < s.x * s.y
    ensures RowMajorPoint(s.x, GridLike.GetIdx(s, p)) == p
  {
    GridPoint.AsIndexInRange(p, s);
    assert GridPoint.AsIndex(p, s.x) / s.x == p.y;
  }

  /** The points of a size in the order `size.iter()` yields them: row by row. */
  function RowMajorPoints(s: UVec2): (r: seq<IVec2>)
    requires Size2d.CountFits(s)
    ensures |r| == Size2d.Count(s)
    ensures forall i :: 0 <= i < |r| ==> s.x > 0 && r[i] == RowMajorPoint(s.x, i)
  {
    if s.x == 0 then [] else seq(Size2d.Count(s), i requires 0 <= i => RowMajorPoint(s.x, i))
  }

  /** With a closure that does not use its state, `new_fn` is a plain function of the
      point: the cell of every in-bounds point holds `f` of that point. */
  lemma NewFnStateless<S, T>(s: UVec2, s0: S, g: (S, IVec2) -> (S, T), f: IVec2 -> T, p: IVec2)
    requires Size2d.CountFits(s) && GridLike.InBounds(s, p)
    requires forall st, q :: g(st, q) == (st, f(q))
    ensures 0 <= GridLike.GetIdx(s, p) < Size2d.Count(s)
    ensures Run(s0, RowMajorPoints(s), g).1[GridLike.GetIdx(s, p)] == f(p)
  {
    RowMajorVisits(s, p);
    RunStateless(s0, RowMajorPoints(s), g, f);
  }

  /** A closure counting its calls observes the row-major order of `new_fn`: the cell of
      every in-bounds point receives that point's index. */
  lemma NewFnCountsRowMajor(s: UVec2, p: IVec2)
    requires Size2d.CountFits(s) && GridLike.InBounds(s, p)
    ensures 0 <= GridLike.GetIdx(s, p) < Size2d.Count(s)
    ensures Run(0, RowMajorPoints(s), Counter()).1[GridLike.GetIdx(s, p)] == GridLike.GetIdx(s, p)
  {
    RowMajorVisits(s, p);
    CounterNumbersCalls(0, RowMajorPoints(s));
  }

  class Grid<T> {
    var size: UVec2
    var cells: seq<T>

    /** The vector holds one cell per point of the size. */
    ghost predicate Valid()
      reads this
    {
      |cells| == size.x * size.y
    }

    /** `new`: `count` copies of the value. */
    constructor New(s: UVec2, value: T)
      requires Size2d.CountFits(s)
      ensures Valid() && size == s
      ensures |cells| == Size2d.Count(s)
      ensures forall i :: 0 <= i < |cells| ==> cells[i] == value
    {
      size := Size2d.AsUVec2(s);
      cells := seq(Size2d.Count(s), _ => value);
    }

    /** `new_fn`: pushes the result of one call of the closure per point of `size.iter()`,
        in row-major order, so cell `i` is the result of call `i`. */
    constructor NewFn<S>(s: UVec2, s0: S, f: (S, IVec2) -> (S, T))
      requires Size2d.CountFits(s)
      ensures Valid() && size == s
      ensures |cells| == Size2d.Count(s)
      ensures cells == Run(s0, RowMajorPoints(s), f).1
    {
      var pts := RowMajorPoints(s);
      var n := Size2d.Count(s);
      var st, cs: seq<T> := s0, [];
      var i := 0;
      while i < n
        invariant 0 <= i <= n
        invariant (st, cs) == Run(s0, pts[..i], f)
      {
        RunStep(s0, pts[..i], pts[i], f);
        assert pts[..i + 1] == pts[..i] + [pts[i]];
        var out := f(st, pts[i]);
        st, cs := out.0, cs + [out.1];
        i := i + 1;
      }
      assert pts[..n] == pts;
      size := Size2d.AsUVec2(s);
      cells := cs;
    }

    /** `new_grid_map`: the other grid's size, and one call of the closure per cell of it,
        in the order of its cell vector. */
    constructor NewGridMap<U, S>(g: Grid<U>, s0: S, f: (S, U) -> (S, T))
      requires g.Valid()
      ensures Valid() && size == g.size
      ensures |cells| == |g.cells|
      ensures cells == Run(s0, g.cells, f).1
    {
      cells := Run(s0, g.cells, f).1;
      size := g.size;
    }

    /** `new_clone`: an empty vector resized to `count` with clones of the value. */
    constructor NewClone(s: UVec2, value: T)
      requires Size2d.CountFits(s)
      ensures Valid() && size == s
      ensures |cells| == Size2d.Count(s)
      ensures forall i :: 0 <= i < |cells| ==> cells[i] == value
    {
      cells := Resize([], Size2d.Count(s), value);
      size := Size2d.AsUVec2(s);
    }

    /** `new_copy`: an empty vector resized to `count` with a closure returning the value. */
    constructor NewCopy(s: UVec2, value: T)
      requires Size2d.CountFits(s)
      ensures Valid() && size == s
      ensures |cells| == Size2d.Count(s)
      ensures forall i :: 0 <= i < |cells| ==> cells[i] == value
    {
      cells := ResizeWith([], Size2d.Count(s), () => value);
      size := Size2d.AsUVec2(s);
    }

    /** `new_default`: an empty vector resized to `count` with `T::default`, which is
        passed in as `dflt`. */
    constructor NewDefault(s: UVec2, dflt: T)
      requires Size2d.CountFits(s)
      ensures Valid() && size == s
      ensures |cells| == Size2d.Count(s)
      ensures forall i :: 0 <= i < |cells| ==> cells[i] == dflt
    {
      cells := ResizeWith([], Size2d.Count(s), () => dflt);
      size := Size2d.AsUVec2(s);
    }

    /** `map`: a new grid of the same size, holding the results of one call of the closure
        per cell, in the order of the cell vector. */
    method Map<U, S>(s0: S, f: (S, T) -> (S, U)) returns (r: Grid<U>)
      requires Valid()
      ensures fresh(r) && r.Valid() && r.size == size
      ensures |r.cells| == |cells|
      ensures r.cells == Run(s0, cells, f).1
    {
      r := new Grid<U>.NewGridMap(this, s0, f);
    }

    /** `fill`: every cell becomes the value; the size stays. */
    method Fill(value: T)
      requires Valid()
      modifies this
      ensures Valid() && size == old(size) && |cells| == old(|cells|)
      ensures forall i :: 0 <= i < |cells| ==> cells[i] == value
    {
      cells := Slices.Fill(cells, value);
    }

    function Width(): (r: u32)
      reads this
      ensures Valid() ==> |cells| == r * size.y
    {
      size.x
    }

    function Height(): (r: u32)
      reads this
      ensures Valid() ==> |cells| == size.x * r
    {
      size.y
    }

    /** `len`: the number of cells, which is the number of points of the size. */
    function Len(): (r: nat)
      requires Valid()
      reads this
      ensures r == Width() * Height()
    {
      |cells|
    }

    /** `is_empty`: the vector is empty, which happens exactly for a size with no extent
        along some axis. */
    function IsEmpty(): (r: bool)
      requires Valid()
      reads this
      ensures r <==> Width() == 0 || Height() == 0
    {
      |cells| == 0
    }

    /** `get`: the cell of an in-bounds point, or nothing. */
    function Get(p: IVec2): (r: Option<T>)
      requires Valid()
      reads this
      ensures r.Some? <==> GridLike.InBounds(size, p)
      ensures r.Some? ==> 0 <= p.x < size.x && 0 <= p.y < size.y &&
                          0 <= GridLike.GetIdx(size, p) < |cells| &&
                          r.value == cells[GridLike.GetIdx(size, p)]
    {
      match GridLike.TryIdx(size, p)
      case Some(idx) => Some(cells[idx])
      case None => None
    }

    /** `get_mut`: a write through the returned reference, modelled as applying `f` to
        the cell. Only the cell of an in-bounds point changes; otherwise nothing does. */
    method GetMut(p: IVec2, f: T -> T) returns (found: bool)
      requires Valid()
      modifies this
      ensures Valid() && size == old(size)
      ensures found <==> GridLike.InBounds(size, p)
      ensures found ==> Get(p) == Some(f(old(Get(p)).value))
      ensures forall q :: q != p ==> Get(q) == old(Get(q))
      ensures !found ==> cells == old(cells)
      ensures found ==> 0 <= GridLike.GetIdx(size, p) < |cells| &&
                        cells == old(cells)[GridLike.GetIdx(size, p) := f(old(cells)[GridLike.GetIdx(size, p)])]
    {
      match GridLike.TryIdx(size, p)
      case Some(idx) =>
        cells := cells[idx := f(cells[idx])];
        found := true;
        forall q | q != p && GridLike.InBounds(size, q)
          ensures GridLike.GetIdx(size, q) != idx
        {
          GridPoint.AsIndexInjective(p, q, size);
        }
      case None =>
        found := false;
    }

    /** `get_checked` (and `Index<P>`): the cell at the point's index with no bounds
        test, so a point past the end of a row reads a cell of another row. It agrees
        with `get` on every in-bounds point. */
    function GetChecked(p: IVec2): (r: T)
      requires Valid() && 0 <= GridLike.GetIdx(size, p) < |cells|
      reads this
      ensures GridLike.InBounds(size, p) ==> Get(p) == Some(r)
    {
      cells[GridLike.GetIdx(size, p)]
    }

    /** `get_mut_checked` (and `IndexMut<P>`): applies `f` to the cell at the point's
        index. */
    method GetMutChecked(p: IVec2, f: T -> T)
      requires Valid() && 0 <= GridLike.GetIdx(size, p) < |cells|
      modifies this
      ensures Valid() && size == old(size)
      ensures GetChecked(p) == f(old(GetChecked(p)))
      ensures forall i :: 0 <= i < |cells| && i != GridLike.GetIdx(size, p) ==> cells[i] == old(cells[i])
    {
      var idx := GridLike.GetIdx(size, p);
      cells := cells[idx := f(cells[idx])];
    }

    /** `Index<usize>`: the cell at a flat index, which is the cell of the point
        `index_to_pt` finds for it. */
    function IndexAt(i: nat): (r: T)
      requires Valid() && i < |cells|
      reads this
      ensures size.x <= I32_MAX && size.y <= I32_MAX ==>
                GridLike.IndexToPt(size, i) == RowMajorPoint(size.x, i) &&
                Get(GridLike.IndexToPt(size, i)) == Some(r)
    {
      if size.x <= I32_MAX && size.y <= I32_MAX then
        IndexToPtInBounds(size, i);
        cells[i]
      else
        cells[i]
    }

    /** `IndexMut<usize>`: applies `f` to the cell at a flat index. */
    method IndexAtMut(i: nat, f: T -> T)
      requires Valid() && i < |cells|
      modifies this
      ensures Valid() && size == old(size)
      ensures cells == old(cells)[i := f(old(cells)[i])]
    {
      cells := cells[i := f(cells[i])];
    }

    /** `rows`: the vector in chunks of `width`, which for a full grid are its `height`
        rows, row `y` being the cells `[y * width, (y + 1) * width)`. A width of zero
        panics. */
    function Rows(): (r: seq<seq<T>>)
      requires Valid() && size.x > 0
      reads this
      ensures |r| == size.y
      ensures forall y :: 0 <= y < |r| ==> r[y] == Row(y)
    {
      ChunksOfRows(cells, size.x, size.y);
      Chunks(cells, size.x)
    }

    /** Row `y`: the cells `[y * width, (y + 1) * width)`, which are those of the points
        `(x, y)` from left to right. */
    function Row(y: nat): (r: seq<T>)
      requires Valid() && y < size.y
      reads this
      ensures |r| == size.x
      ensures forall x :: 0 <= x < size.x ==>
                0 <= GridLike.GetIdx(size, IVec2(x, y)) < |cells| &&
                r[x] == cells[GridLike.GetIdx(size, IVec2(x, y))]
    {
      RowBounds(size.x, size.y, y);
      cells[y * size.x..(y + 1) * size.x]
    }

    /** `cols` as written: the vector in chunks of `width`, the same as `rows`. */
    function Cols(): (r: seq<seq<T>>)
      requires Valid() && size.x > 0
      reads this
      ensures r == Rows()
    {
      Chunks(cells, size.x)
    }

    /** `iter_column`: the cells from `x` on, stepping by `width`. For `x < width` these
        are the `height` cells of column `x`, from row 0 up. */
    function IterColumn(x: nat): (r: seq<T>)
      requires Valid() && size.x > 0 && x <= |cells|
      reads this
      ensures forall k :: 0 <= k < |r| ==> x + k * size.x < |cells| && r[k] == cells[x + k * size.x]
      ensures x < size.x ==> |r| == size.y
    {
      StepByElements(cells[x..], size.x);
      ColumnCount(x);
      StepBy(cells[x..], size.x)
    }

    /** A column from `x < width` has one cell per row. */
    lemma ColumnCount(x: nat)
      requires Valid() && size.x > 0 && x <= |cells|
      ensures x < size.x ==> |StepBy(cells[x..], size.x)| == size.y
    {
      if x < size.x {
        ColumnLength(size.x, size.y, x);
        StepByCount(cells[x..], size.x, size.y);
      }
    }

    /** The columns as evidently intended: column `x` for each `x` in `[0, width)`. */
    function Columns(): (r: seq<seq<T>>)
      requires Valid() && size.x > 0
      reads this
      ensures |r| == size.x
      ensures forall x :: 0 <= x < |r| ==> r[x] == Column(x)
    {
      seq(size.x, x requires 0 <= x < size.x && Valid() reads this => Column(x))
    }

    /** Column `x` as evidently intended: the cell of every row, from row 0 up. */
    function Column(x: nat): (r: seq<T>)
      requires Valid() && x < size.x
      reads this
      ensures |r| == size.y
      ensures forall y :: 0 <= y < |r| ==> x + y * size.x < |cells| && r[y] == cells[x + y * size.x]
    {
      if size.y == 0 then
        []
      else
        MulAtLeast(size.y, size.x);
        IterColumn(x)
    }

    /** `iter_rows` as written: the rows from the range's start, at most
        `end.saturating_sub(start) + 1` of them, where `end` is the last index of the range
        (or the height for an unbounded end). Slicing from `start * width` panics for a
        start past the last row. */
    function IterRows(range: GridLike.Range): (r: seq<seq<T>>)
      requires Valid() && size.x > 0
      requires range.end.Excluded? ==> range.end.n > 0
      requires GridLike.RangeToStartEnd(size, range, Axes.Axis.Y).0 <= size.y
      reads this
      ensures var (start, end) := GridLike.RangeToStartEnd(size, range, Axes.Axis.Y);
              |r| == Min(SaturatingSub(end, start) + 1, size.y - start) &&
              forall k :: 0 <= k < |r| ==> r[k] == Row(start + k)
    {
      var (start, end) := GridLike.RangeToStartEnd(size, range, Axes.Axis.Y);
      var count := SaturatingSub(end, start) + 1;
      TakeRowsFrom(start, count);
      Take(Chunks(cells[start * size.x..], size.x), count)
    }

    /** `iter_rows_mut`: as `iter_rows`, but the count `end - start + 1` is not saturated,
        so an end before the start underflows. */
    function IterRowsMut(range: GridLike.Range): (r: seq<seq<T>>)
      requires Valid() && size.x > 0
      requires range.end.Excluded? ==> range.end.n > 0
      requires GridLike.RangeToStartEnd(size, range, Axes.Axis.Y).0 <= GridLike.RangeToStartEnd(size, range, Axes.Axis.Y).1
      requires GridLike.RangeToStartEnd(size, range, Axes.Axis.Y).0 <= size.y
      reads this
      ensures r == IterRows(range)
    {
      var (start, end) := GridLike.RangeToStartEnd(size, range, Axes.Axis.Y);
      var count := end - start + 1;
      TakeRowsFrom(start, count);
      Take(Chunks(cells[start * size.x..], size.x), count)
    }

    /** `iter_rows` as evidently intended: exactly the rows whose index the range
        contains, in order, so no row at all for an empty range. */
    function IterRowsInRange(range: GridLike.Range): (r: seq<seq<T>>)
      requires Valid() && size.x > 0 && FirstRow(range) <= size.y
      reads this
      ensures forall y :: 0 <= y < FirstRow(range) ==> !RangeContains(range, y)
      ensures FirstRow(range) + |r| <= size.y
      ensures forall k :: 0 <= k < |r| ==>
                RangeContains(range, FirstRow(range) + k) && r[k] == Row(FirstRow(range) + k)
      ensures FirstRow(range) + |r| == size.y || !RangeContains(range, FirstRow(range) + |r|)
    {
      var first := FirstRow(range);
      var count := SaturatingSub(EndRow(range), first);
      TakeRowsFrom(first, count);
      RowsOfRange(range);
      Take(Chunks(cells[first * size.x..], size.x), count)
    }

    /** Where the rows of a range begin, by `RangeBounds` semantics. */
    function FirstRow(range: GridLike.Range): nat
    {
      match range.start
      case Included(s) => s
      case Excluded(s) => s + 1
      case Unbounded => 0
    }

    /** Among the rows of the grid, a range contains exactly those from its first row up
        to its end row. */
    lemma RowsOfRange(range: GridLike.Range)
      ensures forall y: nat :: y < size.y ==>
                (FirstRow(range) <= y < EndRow(range) <==> RangeContains(range, y))
    {
    }

    /** Where the rows of a range end (exclusively), an unbounded end being the height. */
    function EndRow(range: GridLike.Range): nat
      reads this
    {
      match range.end
      case Included(e) => e + 1
      case Excluded(e) => e
      case Unbounded => size.y
    }

    /** At most `count` of the rows from `start` on. */
    lemma TakeRowsFrom(start: nat, count: nat)
      requires Valid() && size.x > 0 && start <= size.y
      ensures start * size.x <= |cells|
      ensures var r := Take(Chunks(cells[start * size.x..], size.x), count);
              |r| == Min(count, size.y - start) &&
              forall k :: 0 <= k < |r| ==> r[k] == Row(start + k)
    {
      RowsFrom(start);
    }

    /** The rows after the first `start` ones, in chunks of `width`, are the grid's rows
        from `start` on. */
    lemma RowsFrom(start: nat)
      requires Valid() && size.x > 0 && start <= size.y
      ensures start * size.x <= |cells|
      ensures |Chunks(cells[start * size.x..], size.x)| == size.y - start
      ensures forall k :: 0 <= k < size.y - start ==>
                Chunks(cells[start * size.x..], size.x)[k] == Row(start + k)
    {
      var w, h := size.x as nat, size.y as nat;
      MulMonotone(start, h, w);
      var rest := cells[start * w..];
      RestOfRows(w, h, start);
      ChunksOfRows(rest, w, h - start);
      forall k | 0 <= k < h - start
        ensures Chunks(rest, w)[k] == Row(start + k)
      {
        RowOfRest(cells, w, h, start, k);
      }
    }

    /** Every helper and the result of `Rows` agree on each row. */
    lemma RowOfRest(s: seq<T>, w: nat, h: nat, start: nat, k: nat)
      requires Valid() && s == cells && w == size.x > 0 && h == size.y
      requires start + k < h
      ensures start * w <= |s| && (k + 1) * w <= |s[start * w..]|
      ensures s[start * w..][k * w..(k + 1) * w] == Row(start + k)
    {
      ShiftRows(s, w, h, start, k);
    }
  }

  /** The offsets of the eight cells around a cell (its Moore neighbourhood). */
  const NEIGHBOR_OFFSETS: set<IVec2> := {
    IVec2(-1, -1), IVec2(0, -1), IVec2(1, -1),
    IVec2(-1, 0), IVec2(1, 0),
    IVec2(-1, 1), IVec2(0, 1), IVec2(1, 1)
  }

  /** The offsets around `p` whose cell holds `val`. */
  ghost function NeighborMatches<T>(g: Grid<T>, p: IVec2, val: T): set<IVec2>
    requires g.Valid()
    reads g
  {
    set o | o in NEIGHBOR_OFFSETS && Matches(g, p, val, o)
  }

  /** The cell at offset `o` from `p` is in the grid and holds `val`. */
  ghost predicate Matches<T>(g: Grid<T>, p: IVec2, val: T, o: IVec2)
    requires g.Valid()
    reads g
  {
    g.Get(p.Add(o)) == Some(val)
  }

  /** Offset `o` comes before `(ix, iy)` in the row-by-row walk over the block. */
  predicate Before(o: IVec2, iy: int, ix: int)
  {
    o.y < iy || (o.y == iy && o.x < ix)
  }

  /** `count_neighbors` for a cell away from the border: visits the 3x3 block around
      the point row by row, skipping the centre, and counts the cells equal to `val`.
      Each neighbour goes through `as usize` and back to `i32`, which is exact here. The
      count is the number of the eight neighbours holding `val`, so at most 8. */
  method CountNeighbors<T(==)>(g: Grid<T>, p: IVec2, val: T) returns (neighbors: nat)
    requires g.Valid() && GridLike.InBounds(g.size, p)
    requires 1 <= p.x && p.x + 1 < g.size.x && 1 <= p.y && p.y + 1 < g.size.y
    ensures neighbors == |NeighborMatches(g, p, val)|
    ensures neighbors <= 8
  {
    neighbors := 0;
    ghost var counted: set<IVec2> := {};
    for iy := -1 to 2
      invariant forall o :: o in counted <==> o in NEIGHBOR_OFFSETS && o.y < iy && Matches(g, p, val, o)
      invariant neighbors == |counted|
    {
      RowOfBlock(iy);
      for ix := -1 to 2
        invariant forall o :: o in counted <==>
                    o in NEIGHBOR_OFFSETS && Before(o, iy, ix) && Matches(g, p, val, o)
        invariant neighbors == |counted|
      {
        var q := GridPoint.FromTuple((UsizeAsI32(AsUsize(p.x + ix)), UsizeAsI32(AsUsize(p.y + iy))));
        NeighborCell(g, p, val, ix, iy);
        var hit := !(ix == 0 && iy == 0) && g.GetChecked(q) == val;
        CountStep(g, p, val, counted, iy, ix, hit);
        if hit {
          counted := counted + {IVec2(ix, iy)};
          neighbors := neighbors + 1;
        }
      }
    }
    Counted(g, p, val, counted);
  }

  /** A step of the walk over the block: the offsets counted so far, plus the one just
      visited when its cell matches. */
  lemma CountStep<T>(g: Grid<T>, p: IVec2, val: T, counted: set<IVec2>, iy: int, ix: int, hit: bool)
    requires g.Valid()
    requires forall o :: o in counted <==> o in NEIGHBOR_OFFSETS && Before(o, iy, ix) && Matches(g, p, val, o)
    requires hit <==> IVec2(ix, iy) in NEIGHBOR_OFFSETS && Matches(g, p, val, IVec2(ix, iy))
    ensures var next := if hit then counted + {IVec2(ix, iy)} else counted;
            (forall o :: o in next <==> o in NEIGHBOR_OFFSETS && Before(o, iy, ix + 1) && Matches(g, p, val, o)) &&
            |next| == |counted| + (if hit then 1 else 0)
  {
    assert IVec2(ix, iy) !in counted;
  }

  /** Entering and leaving a row of the block: before its first column the walk has
      covered the rows above, after its last column this row too. */
  lemma RowOfBlock(iy: int)
    ensures forall o :: o in NEIGHBOR_OFFSETS ==> (Before(o, iy, -1) <==> o.y < iy)
    ensures forall o :: o in NEIGHBOR_OFFSETS ==> (Before(o, iy, 2) <==> o.y < iy + 1)
  {
  }

  /** After the whole block the counted offsets are the matching neighbours, at most
      eight of them. */
  lemma Counted<T>(g: Grid<T>, p: IVec2, val: T, counted: set<IVec2>)
    requires g.Valid()
    requires forall o :: o in counted <==> o in NEIGHBOR_OFFSETS && o.y < 2 && Matches(g, p, val, o)
    ensures counted == NeighborMatches(g, p, val)
    ensures |counted| <= 8
  {
    CountedAreMatches(g, p, val, counted);
    NeighborCount();
    SubsetCard(counted, NEIGHBOR_OFFSETS);
  }

  lemma CountedAreMatches<T>(g: Grid<T>, p: IVec2, val: T, counted: set<IVec2>)
    requires g.Valid()
    requires forall o :: o in counted <==> o in NEIGHBOR_OFFSETS && o.y < 2 && Matches(g, p, val, o)
    ensures counted == NeighborMatches(g, p, val) && counted <= NEIGHBOR_OFFSETS
  {
    forall o
      ensures o in counted <==> o in NeighborMatches(g, p, val)
    {
      if o in NEIGHBOR_OFFSETS {
        NeighborRow(o);
      }
    }
    assert counted == NeighborMatches(g, p, val);
  }

  /** Every neighbour lies in one of the three rows of the block. */
  lemma NeighborRow(o: IVec2)
    requires o in NEIGHBOR_OFFSETS
    ensures -1 <= o.y < 2
  {
  }

  /** There are eight neighbours. */
  lemma NeighborCount()
    ensures |NEIGHBOR_OFFSETS| == 8
  {
  }

  /** The eight offsets are the non-zero ones of the 3x3 block. */
  lemma NeighborOffsets()
    ensures forall o :: o in NEIGHBOR_OFFSETS <==> -1 <= o.x <= 1 && -1 <= o.y <= 1 && o != IVec2(0, 0)
  {
  }

  /** The neighbour at `(ix, iy)`, after the casts, is the cell at that offset; it is in
      bounds, and it matches exactly when its cell holds `val`. */
  lemma NeighborCell<T>(g: Grid<T>, p: IVec2, val: T, ix: int, iy: int)
    requires g.Valid() && GridLike.InBounds(g.size, p)
    requires 1 <= p.x && p.x + 1 < g.size.x && 1 <= p.y && p.y + 1 < g.size.y
    requires -1 <= ix <= 1 && -1 <= iy <= 1
    ensures var q := GridPoint.FromTuple((UsizeAsI32(AsUsize(p.x + ix)), UsizeAsI32(AsUsize(p.y + iy))));
            q == p.Add(IVec2(ix, iy)) && GridLike.InBounds(g.size, q) &&
            (IVec2(ix, iy) in NEIGHBOR_OFFSETS <==> !(ix == 0 && iy == 0)) &&
            0 <= GridLike.GetIdx(g.size, q) < |g.cells| &&
            (Matches(g, p, val, IVec2(ix, iy)) <==> g.GetChecked(q) == val)
  {
    var q := p.Add(IVec2(ix, iy));
    NeighborOffsets();
    InBoundsOfRange(g.size, q);
    GridPoint.AsIndexInRange(q, g.size);
  }

  lemma SubsetCard<A>(a: set<A>, b: set<A>)
    requires a <= b
    ensures |a| <= |b|
  {
    assert b == a + (b - a);
    assert a * (b - a) == {};
  }

  /** `RangeBounds::contains`: whether a row index lies within the range. */
  predicate RangeContains(range: GridLike.Range, y: nat)
  {
    (match range.start
     case Included(s) => s <= y
     case Excluded(s) => s < y
     case Unbounded => true) &&
    (match range.end
     case Included(e) => y <= e
     case Excluded(e) => y < e
     case Unbounded => true)
  }

  /** For a range that does not exclude its start and is not empty, `iter_rows` as written
      yields exactly the rows the range contains. */
  lemma IterRowsAgrees<T>(g: Grid<T>, range: GridLike.Range)
    requires g.Valid() && g.size.x > 0
    requires !range.start.Excluded? && (range.end.Excluded? ==> range.end.n > 0)
    requires GridLike.RangeToStartEnd(g.size, range, Axes.Axis.Y).0 <= g.size.y
    requires GridLike.RangeToStartEnd(g.size, range, Axes.Axis.Y).0 <= GridLike.RangeToStartEnd(g.size, range, Axes.Axis.Y).1
    ensures g.FirstRow(range) == GridLike.RangeToStartEnd(g.size, range, Axes.Axis.Y).0
    ensures g.IterRows(range) == g.IterRowsInRange(range)
  {
    var (start, end) := GridLike.RangeToStartEnd(g.size, range, Axes.Axis.Y);
    g.TakeRowsFrom(start, SaturatingSub(end, start) + 1);
    g.TakeRowsFrom(start, SaturatingSub(g.EndRow(range), start));
  }

  /** `iter_rows(a..=b)` with `a <= b` and `a` a row of the grid yields
      `min(b, height - 1) - a + 1` rows, the `k`-th being row `a + k`. */
  lemma IterRowsInclusive<T>(g: Grid<T>, a: nat, b: nat)
    requires g.Valid() && g.size.x > 0 && a <= b && a < g.size.y
    ensures var r := g.IterRows(GridLike.Range(GridLike.Included(a), GridLike.Included(b)));
            |r| == Min(b, g.size.y - 1) - a + 1 &&
            forall k :: 0 <= k < |r| ==> a + k < g.size.y && r[k] == g.Row(a + k)
  {
    var range := GridLike.Range(GridLike.Included(a), GridLike.Included(b));
    assert GridLike.RangeToStartEnd(g.size, range, Axes.Axis.Y) == (a, b);
  }

  /** `iter_rows(a..)` yields the `height - a` rows from `a` on. */
  lemma IterRowsUnbounded<T>(g: Grid<T>, a: nat)
    requires g.Valid() && g.size.x > 0 && a <= g.size.y
    ensures |g.IterRows(GridLike.Range(GridLike.Included(a), GridLike.Unbounded))| == g.size.y - a
  {
  }

  /** The counterexample to `iter_rows` as written: on a 4x3 grid the empty range `1..1`
      yields one row, where the range contains no row at all. */
  lemma IterRowsEmptyRange<T>(g: Grid<T>)
    requires g.Valid() && g.size == UVec2(4, 3)
    ensures var range := GridLike.Range(GridLike.Included(1), GridLike.Excluded(1));
            !RangeContains(range, 1) &&
            |g.IterRows(range)| == 1 && g.IterRows(range)[0] == g.Row(1) &&
            g.IterRowsInRange(range) == []
  {
  }

  /** The counterexample to `cols` as written: a 2x1 grid has two columns of one cell
      each, but `cols` yields a single chunk, its one row. */
  lemma ColsAreRows<T>(g: Grid<T>)
    requires g.Valid() && g.size == UVec2(2, 1)
    ensures |g.Cols()| == 1 && g.Cols()[0] == g.cells
    ensures |g.Columns()| == 2 && g.Columns()[0] == [g.cells[0]] && g.Columns()[1] == [g.cells[1]]
  {
  }

  /** Every index below the number of cells is the index of the in-bounds point
      `index_to_pt` finds for it, which is the row-major point of that step. */
  lemma IndexToPtInBounds(s: UVec2, i: nat)
    requires s.x <= I32_MAX && s.y <= I32_MAX && i < s.x * s.y
    ensures s.x > 0
    ensures GridLike.IndexToPt(s, i) == RowMajorPoint(s.x, i)
    ensures GridLike.InBounds(s, GridLike.IndexToPt(s, i))
    ensures GridLike.GetIdx(s, GridLike.IndexToPt(s, i)) == i
  {
    PositiveFactor(s.x, s.y);
    IndexBelowCount(i, s.x, s.y);
    IndexToPtOfRow(s, i);
  }

  /** An index whose row is a row of the grid is found at an in-bounds point. */
  lemma IndexToPtOfRow(s: UVec2, i: nat)
    requires 0 < s.x <= I32_MAX && s.y <= I32_MAX && i / s.x < s.y
    ensures GridLike.IndexToPt(s, i) == RowMajorPoint(s.x, i)
    ensures GridLike.InBounds(s, GridLike.IndexToPt(s, i))
    ensures GridLike.GetIdx(s, GridLike.IndexToPt(s, i)) == i
  {
    DivModBounds(i, s.x);
    var p := GridLike.IndexToPt(s, i);
    assert p == RowMajorPoint(s.x, i);
    InBoundsOfRange(s, p);
  }

  lemma InBoundsOfRange(s: UVec2, p: IVec2)
    requires s.x <= I32_MAX && s.y <= I32_MAX && 0 <= p.x < s.x && 0 <= p.y < s.y
    ensures GridLike.InBounds(s, p)
  {
  }

  /** Row `y < h` of a `w`-wide block lies within its `h * w` cells. */
  lemma RowBounds(w: nat, h: nat, y: nat)
    requires y < h
    ensures 0 <= y * w && (y + 1) * w <= w * h && (y + 1) * w == y * w + w
  {
    MulSucc(y, w);
    MulMonotone(0, y, w);
    MulMonotone(y + 1, h, w);
  }

  /** The suffix after `start` full rows holds `h - start` rows. */
  lemma RestOfRows(w: nat, h: nat, start: nat)
    requires start <= h
    ensures h * w - start * w == (h - start) * w
  {
  }

  /** Row `k` of the suffix after `start` rows is row `start + k` of the whole. */
  lemma ShiftRows<T>(s: seq<T>, w: nat, h: nat, start: nat, k: nat)
    requires |s| == h * w && start + k < h
    ensures start * w <= |s| && (k + 1) * w <= |s[start * w..]|
    ensures (start + k + 1) * w <= |s|
    ensures s[start * w..][k * w..(k + 1) * w] == s[(start + k) * w..(start + k + 1) * w]
  {
    var a, lo, hi := start * w, k * w, (k + 1) * w;
    MulAdd(start, k, w);
    MulAdd(start, k + 1, w);
    MulMonotone(start + k + 1, h, w);
    MulMonotone(0, k, w);
    MulSucc(k, w);
    assert s[a..][lo..hi] == s[a + lo..a + hi];
  }

  /** A column from `x < w` of a full grid starts within the last `h * w - x` cells, which
      span `h` steps of `w`. */
  lemma ColumnLength(w: nat, h: nat, x: nat)
    requires x < w
    ensures (h - 1) * w < h * w - x <= h * w
  {
    MulPred(h, w);
  }
}
