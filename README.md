# banana-lib in Dafny

A model of the integer core of banana-lib, a Rust toolkit for grid-based games. It has four parts:

- **Grid storage** (`banana-grid`):
  - the `Size2d` and `GridPoint` traits, specialised to glam's `UVec2` and `IVec2`;
  - the `Axis` helpers;
  - the default methods of `GridLike`;
  - the flat row-major backend `Grid<T>`. It is a class holding a size and a sequence of exactly `width * height` cells; the cell of `(x, y)` is at `y * width + x`.
- **Direction algebra** (`banana-direction`):
  - the eight compass directions and their cardinal and ordinal halves, as datatypes whose member functions are the library's match tables;
  - the `u8` set `DirectionBitmap`;
  - the per-direction tables, as classes over arrays;
  - the direction iterators, as classes over their discriminant range.
- **Rectangles** (`banana-geometry`):
  - `Rect` with its constructors, queries and operator arithmetic;
  - the stateful `RectPointIter` that drives `for_each`.
- **Canvas** (`banana-utils`): the `Canvas` character buffer.

Integers are unbounded. Where the library casts between `i32`, `u32` and `usize`, the cast is written out (`Ints.AsI32`, `AsU32`, `AsUsize`, `UsizeAsI32`) or ruled out by a precondition. Rust's signed `/` and `%` truncate toward zero, and are modelled as `Ints.TDiv` and `Ints.TRem`.

Files:

| file | contents |
|---|---|
| `ints.dfy` | machine-integer helpers |
| `vec2.dfy` | `IVec2`, `UVec2`, `BVec2` |
| `wrappers.dfy` | `Option` |
| `generators.dfy` | the calls of an `FnMut` closure, with its captured state threaded through them |
| `size_2d.dfy`, `grid_point.dfy`, `axis.dfy` | the traits and helpers |
| `grid_like.dfy` | `GridLike` defaults |
| `slices.dfy` | the slice and iterator adaptors `Grid` uses |
| `grid.dfy` | `Grid<T>` |
| `directions.dfy`, `direction_laws.dfy`, `direction_tables.dfy`, `direction_iters.dfy` | the direction algebra |
| `rect.dfy`, `rect_arith.dfy`, `rect_iter.dfy` | rectangles |
| `canvas.dfy` | the canvas |

## Model

| member | source | states |
|---|---|---|
| Ints.AsI32 | banana-grid/src/size_2d.rs:19-21 | `u32 as i32` is the identity up to `i32::MAX` and subtracts `2^32` above it |
| Ints.AsU32 | banana-grid/src/grid_point.rs:34-36 | `i32 as u32` keeps non-negative values and adds `2^32` to negative ones |
| Ints.AsUsize | banana-grid/src/grid_point.rs:58-60 | `i32 as usize` keeps non-negative values and adds `2^64` to negative ones |
| Ints.UsizeAsI32 | banana-grid/src/grid_like.rs:67-71 | `usize as i32` stays in the `i32` range and is exact up to `i32::MAX` |
| Ints.AsU32AsI32 | banana-grid/src/size_2d.rs:25-27 | casting `u32` to `i32` and back loses nothing |
| Ints.TruncatingDivision | banana-grid/src/grid_point.rs:75-82 | Rust's `/` and `%`: `a == b*q + r`, with `r` carrying the sign of `a` and smaller than `b` in magnitude |
| Size2d.AsIVec2 | banana-grid/src/size_2d.rs:19-21 | both extents are cast into the `i32` range, exactly below `2^31` |
| Size2d.AsUVec2 | banana-grid/src/size_2d.rs:25-27 | the size itself, as a `UVec2` |
| Size2d.AsArray | banana-grid/src/size_2d.rs:37-39 | `[width, height]` for sizes below `2^31` |
| Size2d.AsTuple | banana-grid/src/size_2d.rs:43-45 | `(width, height)` for sizes below `2^31` |
| Size2d.AsUArray | banana-grid/src/size_2d.rs:49-51 | `[width, height]` as `usize`s |
| Size2d.Intersects | banana-grid/src/size_2d.rs:54-59 | true iff both sizes cover at least one cell; positions play no part |
| Size2d.PointInBounds | banana-grid/src/size_2d.rs:62-70 | the point lies in `[0, width) x [0, height)` |
| Size2d.InBoundsPointsCount | banana-grid/src/size_2d.rs:13-15 | exactly `count()` points are in bounds |
| Size2d.Count | banana-grid/src/size_2d.rs:13-15 | zero iff one of the extents is zero; within `u32` for the sizes modelled |
| GridPoint.New | banana-grid/src/grid_point.rs:10-12 | the point with exactly the given coordinates |
| GridPoint.FromTuple | banana-grid/src/grid_point.rs:111-124 | a tuple read as a point gives the tuple back through `as_tuple` |
| GridPoint.FromArray | banana-grid/src/grid_point.rs:96-109 | an array read as a point gives the array back through `as_array` |
| GridPoint.AsIVec2 | banana-grid/src/grid_point.rs:28-30 | the point itself |
| GridPoint.AsTuple | banana-grid/src/grid_point.rs:52-54 | a pair from which `new` rebuilds the point |
| GridPoint.AsArray | banana-grid/src/grid_point.rs:46-48 | a two-element array from which `new` rebuilds the point |
| GridPoint.AsUVec2 | banana-grid/src/grid_point.rs:34-36 | non-negative points convert to the same `UVec2` |
| GridPoint.AsUArray | banana-grid/src/grid_point.rs:58-60 | non-negative points convert to `[x, y]` |
| GridPoint.ConversionsRoundTrip | banana-grid/src/grid_point.rs:28-54 | `as_ivec2`, `as_tuple` and `as_array` give `(x, y)`, and each representation converts to a point and back without loss |
| GridPoint.IsValid | banana-grid/src/grid_point.rs:64-72 | valid iff `0 <= x < width` and `0 <= y < height` (sizes below `2^31`) |
| GridPoint.PointInBoundsIsValid | banana-grid/src/size_2d.rs:62-70 | `point_in_bounds` and `is_valid` agree on every point |
| GridPoint.AsIndex | banana-grid/src/grid_point.rs:22-24 | for `0 <= x < w`, dividing the index by `w` gives back `y` and the remainder `x` |
| GridPoint.AsIndexInRange | banana-grid/src/grid_point.rs:22-24 | a valid point's index lies in `[0, w*h)` |
| GridPoint.AsIndexInjective | banana-grid/src/grid_point.rs:22-24 | distinct valid points have distinct indices |
| GridPoint.NormalizePart | banana-grid/src/grid_point.rs:75-82 | for `0 < size <= i32::MAX`, the result is in `[0, size)` and congruent to the input modulo `size` |
| GridPoint.NormalizePartFixes | banana-grid/src/grid_point.rs:75-82 | a value already in `[0, size)` is unchanged |
| GridPoint.Normalize | banana-grid/src/grid_point.rs:85-93 | for both extents in `(0, i32::MAX]`, the normalised point is valid |
| GridPoint.NormalizeFixesValid | banana-grid/src/grid_point.rs:85-93 | valid points are fixed, so normalising is idempotent |
| Axes.Axis.Other | banana-grid/src/axis.rs:15-20 | an axis other than this one |
| Axes.Axis.NewCoord | banana-grid/src/axis.rs:23-31 | the point places its two values as `new_size` places two extents |
| Axes.Axis.NewSize | banana-grid/src/axis.rs:45-50 | `size` along this axis reads back `this_axis`, along the other axis `other_axis` |
| Axes.Axis.Size | banana-grid/src/axis.rs:53-61 | the width along X, the height along Y |
| Axes.OtherInvolution | banana-grid/src/axis.rs:15-20 | `other` is an involution with no fixed point |
| Axes.SizeAlongAxes | banana-grid/src/axis.rs:53-61 | the extent along X is the width, along Y the height |
| Axes.NewSizeRoundTrip | banana-grid/src/axis.rs:45-50 | `size` along the axis, and along the other axis, reads back the two extents `new_size` was given |
| Axes.NewCoordPlacement | banana-grid/src/axis.rs:23-31 | along X the point is `(this, other)`, along Y it is `(other, this)` |
| GridLike.InBounds | banana-grid/src/grid_like.rs:36-42 | agrees with `is_valid`: inside `[0, w) x [0, h)` |
| GridLike.GetIdx | banana-grid/src/grid_like.rs:45-50 | for `0 <= x < w`, dividing the index by `w` gives `y` and the remainder `x` |
| GridLike.TryIdx | banana-grid/src/grid_like.rs:55-64 | `Some(get_idx(p))` iff the point is in bounds, the index then being below `w*h` |
| GridLike.IndexToPt | banana-grid/src/grid_like.rs:67-71 | `(i % w, i / w)` while the row fits in `i32`, and `get_idx` of it is `i` |
| GridLike.IndexToPtGetIdx | banana-grid/src/grid_like.rs:45-71 | `index_to_pt` inverts `get_idx` on in-bounds points |
| GridLike.TryIndexToPt | banana-grid/src/grid_like.rs:76-85 | any point found is in bounds; for rows within `i32` it is `index_to_pt` gated by `in_bounds` |
| GridLike.TryIndexToPtInRange | banana-grid/src/grid_like.rs:76-85 | for rows within `i32`, a point is found iff the index is below `w*h` |
| GridLike.TryIndexToPtWraps | banana-grid/src/grid_like.rs:76-85 | counterexample: on a 1x1 grid the out-of-range index `2^32` is accepted as `(0, 0)` |
| GridLike.TryIndexToPtCheckedCorrect | banana-grid/src/grid_like.rs:76-85 | corrected lookup: `Some` iff the index is below `w*h`, at an in-bounds point whose index it is; agrees with the written one where rows fit in `i32` |
| GridLike.RangeToStartEnd | banana-grid/src/grid_like.rs:90-103 | the start bound's value or 0, and the last index: an included end itself, an excluded end the one before, an unbounded end the axis extent |
| GridLike.RangeToStartEndBounds | banana-grid/src/grid_like.rs:90-103 | included and excluded starts give their value and an unbounded start 0; an included end gives its value, an excluded end the one before, an unbounded end the axis extent |
| Generators.Run | banana-direction/src/table.rs:33-42 | one result per call, in the order of the arguments |
| Generators.RunStep | banana-direction/src/table.rs:36-37 | a further call sees the state the earlier calls left, and its result is appended |
| Generators.RunAt | banana-direction/src/table.rs:36-37 | call `i` yields the closure applied to argument `i` in the state the first `i` calls left, and earlier results do not depend on later arguments |
| Generators.RunStateless | banana-grid/src/grids/grid.rs:47-59 | a closure that keeps its state unchanged acts as a plain function of its argument |
| Generators.CounterNumbersCalls | banana-grid/src/grids/grid.rs:47-59 | a closure counting its calls is called in the order of the arguments: call `i` sees the count `c + i` |
| FlatGrid.RowMajorVisits | banana-grid/src/grids/grid.rs:47-59 | the row-major walk reaches every in-bounds point at the step of its index |
| FlatGrid.Grid.New | banana-grid/src/grids/grid.rs:29-35 | the size is kept and there are `count` cells, all equal to the value |
| FlatGrid.Grid.NewFn | banana-grid/src/grids/grid.rs:47-59 | `count` cells; the closure is called once per point in row-major order, its state threaded through the calls, and cell `i` is the result of call `i` |
| FlatGrid.RowMajorPoints | banana-grid/src/grids/grid.rs:47-59 | the `count` points of the size in row-major order |
| FlatGrid.NewFnStateless | banana-grid/src/grids/grid.rs:47-59 | with a closure that keeps no state, the cell of each in-bounds point `p` is `f(p)` |
| FlatGrid.NewFnCountsRowMajor | banana-grid/src/grids/grid.rs:47-59 | a closure counting its calls stores in the cell of each in-bounds point that point's index, so the calls follow the cell order |
| FlatGrid.Grid.NewGridMap | banana-grid/src/grids/grid.rs:37-44 | the source's size and length; the closure is called on the source cells in order, its state threaded through, and cell `i` is the result of call `i` |
| FlatGrid.Grid.NewClone | banana-grid/src/grids/grid.rs:62-71 | the size is kept and there are `count` cells, all equal to the value |
| FlatGrid.Grid.NewCopy | banana-grid/src/grids/grid.rs:74-83 | the size is kept and there are `count` cells, all equal to the value |
| FlatGrid.Grid.NewDefault | banana-grid/src/grids/grid.rs:86-95 | the size is kept and there are `count` cells, all equal to the default |
| FlatGrid.Grid.Map | banana-grid/src/grids/grid.rs:190-192 | a fresh grid of the same size and length; the closure is called on the cells in order, its state threaded through, and cell `i` is the result of call `i` |
| FlatGrid.Grid.Fill | banana-grid/src/grids/grid.rs:105-110 | every cell becomes the value; the size and length do not change |
| Slices.FillIdempotent | banana-grid/src/grids/grid.rs:105-110 | filling twice with a value is filling once |
| FlatGrid.Grid.Width | banana-grid/src/grids/grid.rs:113-115 | with the height, it accounts for every cell: `width * height` is the length |
| FlatGrid.Grid.Height | banana-grid/src/grids/grid.rs:118-120 | with the width, it accounts for every cell |
| FlatGrid.Grid.Len | banana-grid/src/grids/grid.rs:128-130 | the length is `width * height` |
| FlatGrid.Grid.IsEmpty | banana-grid/src/grids/grid.rs:133-135 | true iff the width or the height is zero |
| FlatGrid.Grid.Get | banana-grid/src/grids/grid.rs:137-142 | `Some` iff the point is in bounds, holding the cell at `y*w + x` |
| FlatGrid.Grid.GetMut | banana-grid/src/grids/grid.rs:144-149 | for an in-bounds point exactly its cell becomes `f` of its old value; otherwise nothing changes |
| FlatGrid.Grid.GetChecked | banana-grid/src/grids/grid.rs:151-156 | the cell at the point's index; on in-bounds points it agrees with `get` |
| FlatGrid.Grid.GetMutChecked | banana-grid/src/grids/grid.rs:158-163 | the cell at the point's index becomes `f` of its old value, and no other cell changes |
| FlatGrid.Grid.IndexAt | banana-grid/src/grids/grid.rs:281-288 | the cell at flat index `i` is the one `get` returns at `index_to_pt(i)` |
| FlatGrid.Grid.IndexAtMut | banana-grid/src/grids/grid.rs:290-295 | only cell `i` changes |
| FlatGrid.Grid.Rows | banana-grid/src/grids/grid.rs:211-213 | `height` chunks; chunk `y` is row `y` |
| FlatGrid.Grid.Row | banana-grid/src/grids/grid.rs:211-213 | `width` cells; cell `x` is the cell of point `(x, y)` |
| FlatGrid.Grid.Cols | banana-grid/src/grids/grid.rs:221-223 | as written, equal to `rows()` |
| FlatGrid.ColsAreRows | banana-grid/src/grids/grid.rs:221-223 | counterexample: on a 2x1 grid `cols` yields one chunk where there are two columns |
| FlatGrid.Grid.Columns | banana-grid/src/grids/grid.rs:262-265 | corrected `cols`: `width` columns, column `x` being `Column(x)` |
| FlatGrid.Grid.Column | banana-grid/src/grids/grid.rs:262-265 | one cell per row, the `y`-th at `x + y*w` |
| FlatGrid.Grid.IterColumn | banana-grid/src/grids/grid.rs:262-265 | item `k` is the cell at `x + k*w`, and for `x < w` there are exactly `height` items |
| FlatGrid.Grid.IterRows | banana-grid/src/grids/grid.rs:233-242 | `min(end.saturating_sub(start) + 1, h - start)` rows from `start`, the `k`-th being row `start + k` |
| FlatGrid.IterRowsInclusive | banana-grid/src/grids/grid.rs:233-242 | `iter_rows(a..=b)` yields `min(b, h-1) - a + 1` rows, the `k`-th being row `a + k` |
| FlatGrid.IterRowsUnbounded | banana-grid/src/grids/grid.rs:233-242 | `iter_rows(a..)` yields `h - a` rows |
| FlatGrid.IterRowsEmptyRange | banana-grid/src/grids/grid.rs:233-242 | counterexample: the empty range `1..1` yields row 1, where the range contains no row |
| FlatGrid.Grid.IterRowsInRange | banana-grid/src/grids/grid.rs:233-242 | corrected `iter_rows`: exactly the rows the range contains, in order |
| FlatGrid.IterRowsAgrees | banana-grid/src/grids/grid.rs:233-242 | for a non-empty range with no excluded start, the written and corrected versions agree |
| FlatGrid.Grid.IterRowsMut | banana-grid/src/grids/grid.rs:247-256 | with `start <= end` (the unsaturated count needs it), the same rows as `iter_rows` |
| FlatGrid.CountNeighbors | banana-grid/src/grids/grid.rs:165-182 | for an interior point, the number of the eight neighbours holding the value, at most 8 |
| FlatGrid.NeighborOffsets | banana-grid/src/grids/grid.rs:165-182 | the neighbours are the non-zero offsets of the 3x3 block |
| Directions.Direction.Index | banana-direction/src/direction.rs:9-21 | the `u8` discriminant, below 8 |
| Directions.Direction.FromIndex | banana-direction/src/iter.rs:21-23 | the direction with the given discriminant |
| Directions.Direction.FromUnitCoord | banana-direction/src/direction.rs:31-46 | the direction whose step is the given unit coordinate; other input panics |
| Directions.Direction.Opposite | banana-direction/src/direction.rs:48-59 | discriminant `+4 mod 8` |
| Directions.Direction.Coord | banana-direction/src/direction.rs:61-72 | a unit step, along one axis iff the direction is cardinal |
| Directions.Direction.Left90 | banana-direction/src/direction.rs:74-85 | discriminant `+6 mod 8` |
| Directions.Direction.Right90 | banana-direction/src/direction.rs:87-98 | discriminant `+2 mod 8` |
| Directions.Direction.Left45 | banana-direction/src/direction.rs:100-111 | discriminant `+7 mod 8` |
| Directions.Direction.Right45 | banana-direction/src/direction.rs:113-124 | discriminant `+1 mod 8` |
| Directions.Direction.Left135 | banana-direction/src/direction.rs:126-137 | discriminant `+5 mod 8` |
| Directions.Direction.Right135 | banana-direction/src/direction.rs:139-150 | discriminant `+3 mod 8` |
| Directions.Direction.BitmapRaw | banana-direction/src/direction.rs:152-154 | `1 << index` |
| Directions.Direction.IsCardinal | banana-direction/src/direction.rs:160-162 | true iff the discriminant is even; `DirectionLaws.KindPartition` shows exactly one of cardinal and ordinal holds |
| Directions.Direction.IsOrdinal | banana-direction/src/direction.rs:164-172 | true iff the discriminant is odd |
| Directions.Direction.Typ | banana-direction/src/direction.rs:174-185 | the cardinal tag iff cardinal, the ordinal tag iff ordinal, wrapping this direction |
| Directions.Direction.Cardinal | banana-direction/src/direction.rs:187-195 | `Some` iff cardinal, holding the cardinal direction that maps back to this one |
| Directions.Direction.Ordinal | banana-direction/src/direction.rs:197-205 | `Some` iff ordinal, holding the ordinal direction that maps back to this one |
| Directions.Direction.ToArray | banana-direction/src/direction.rs:212-225 | `[i32; 2]` of the direction's step |
| Directions.Direction.ToTuple | banana-direction/src/direction.rs:227-241 | `(i32, i32)` of the direction's step |
| DirectionLaws.IndexBijection | banana-direction/src/direction.rs:30-46 | discriminant numbering is a bijection for all three enums |
| DirectionLaws.OppositeInvolution | banana-direction/src/direction.rs:48-72 | `opposite` is an involution without fixed point and negates the step |
| DirectionLaws.RotationInverses | banana-direction/src/direction.rs:74-150 | each left rotation undoes the right one of the same angle |
| DirectionLaws.RotationCompositions | banana-direction/src/direction.rs:74-150 | 90° is twice 45°, 135° is 90° then 45°, opposite is twice 90° |
| DirectionLaws.FromUnitCoordRoundTrip | banana-direction/src/direction.rs:31-72 | `from_unit_coord(coord(d)) == d`, and `coord` is injective |
| DirectionLaws.KindPartition | banana-direction/src/direction.rs:160-205 | exactly one of cardinal and ordinal holds (even or odd discriminant), and `typ`, `cardinal`, `ordinal` agree |
| Directions.CardinalDirection.FromUnitCoord | banana-direction/src/cardinal.rs:24-35 | the cardinal direction of an axis step; other input panics |
| Directions.CardinalDirection.AsDirection | banana-direction/src/cardinal.rs:37-44 | a cardinal `Direction` at twice the discriminant |
| Directions.CardinalDirection.Opposite | banana-direction/src/cardinal.rs:46-53 | discriminant `+2 mod 4`, commuting with `direction` |
| Directions.CardinalDirection.Coord | banana-direction/src/cardinal.rs:55-62 | the step of its `Direction` |
| Directions.CardinalDirection.Left90 | banana-direction/src/cardinal.rs:64-71 | discriminant `+3 mod 4`, commuting with `direction` |
| Directions.CardinalDirection.Right90 | banana-direction/src/cardinal.rs:73-80 | discriminant `+1 mod 4`, commuting with `direction` |
| Directions.CardinalDirection.Left45 | banana-direction/src/cardinal.rs:82-89 | commutes with `direction` |
| Directions.CardinalDirection.Right45 | banana-direction/src/cardinal.rs:91-98 | commutes with `direction` |
| Directions.CardinalDirection.Left135 | banana-direction/src/cardinal.rs:100-107 | commutes with `direction` |
| Directions.CardinalDirection.Right135 | banana-direction/src/cardinal.rs:109-116 | commutes with `direction` |
| Directions.CardinalDirection.Axis | banana-direction/src/cardinal.rs:118-123 | the step is the sign placed on this axis |
| Directions.CardinalDirection.Sign | banana-direction/src/cardinal.rs:125-130 | `±1`, the non-zero component of the step |
| Directions.CardinalDirection.ToArray | banana-direction/src/cardinal.rs:154-163 | `[i32; 2]` of the step |
| Directions.CardinalDirection.ToTuple | banana-direction/src/cardinal.rs:165-175 | `(i32, i32)` of the step |
| DirectionLaws.CardinalRotations | banana-direction/src/cardinal.rs:46-80 | `opposite` is an involution; the quarter turns are mutual inverses |
| DirectionLaws.CardinalEmbedding | banana-direction/src/cardinal.rs:24-44 | `direction` is injective onto the cardinal `Direction`s, and `from_unit_coord` inverts `coord` |
| Directions.CardinalDirection.AxisAndSign | banana-direction/src/cardinal.rs:132-139 | a sign of `±1` and an axis, the step being that sign placed on that axis |
| Directions.CardinalDirection.Combine | banana-direction/src/cardinal.rs:149-151 | `Some` iff the two directions lie on different axes, the diagonal being `from_cardinals` of the pair; `DirectionLaws.FromCardinalsCoord` shows its step is the sum of the two steps |
| DirectionLaws.AxisAndSignAgree | banana-direction/src/cardinal.rs:118-139 | `axis_and_sign` is `(axis, sign)`, and the step is the sign on the axis and 0 on the other |
| DirectionLaws.CombineCommutative | banana-direction/src/cardinal.rs:149-151 | `combine` is commutative and is `None` iff both are on one axis |
| Directions.OrdinalDirection.FromUnitCoord | banana-direction/src/ordinal.rs:24-35 | the ordinal direction of a diagonal step; other input panics |
| Directions.OrdinalDirection.AsDirection | banana-direction/src/ordinal.rs:37-44 | an ordinal `Direction` at twice the discriminant plus one |
| Directions.OrdinalDirection.Opposite | banana-direction/src/ordinal.rs:46-53 | discriminant `+2 mod 4`, commuting with `direction` |
| Directions.OrdinalDirection.Coord | banana-direction/src/ordinal.rs:55-62 | the step of its `Direction` |
| Directions.OrdinalDirection.Left90 | banana-direction/src/ordinal.rs:64-71 | discriminant `+3 mod 4`, commuting with `direction` |
| Directions.OrdinalDirection.Right90 | banana-direction/src/ordinal.rs:73-80 | discriminant `+1 mod 4`, commuting with `direction` |
| Directions.OrdinalDirection.Left45 | banana-direction/src/ordinal.rs:82-89 | commutes with `direction` |
| Directions.OrdinalDirection.Right45 | banana-direction/src/ordinal.rs:91-98 | commutes with `direction` |
| Directions.OrdinalDirection.Left135 | banana-direction/src/ordinal.rs:100-107 | commutes with `direction` |
| Directions.OrdinalDirection.Right135 | banana-direction/src/ordinal.rs:109-116 | commutes with `direction` |
| Directions.OrdinalDirection.FromCardinals | banana-direction/src/ordinal.rs:118-141 | `Some` iff the two directions lie on different axes |
| Directions.OrdinalDirection.ToCardinals | banana-direction/src/ordinal.rs:143-152 | a clockwise pair that `from_cardinals` maps back to this diagonal in either order |
| Directions.OrdinalDirection.CardinalBitmap | banana-direction/src/ordinal.rs:154-157 | holds exactly the two cardinal directions of the diagonal, within the cardinal set |
| Directions.OrdinalDirection.ToArray | banana-direction/src/ordinal.rs:168-177 | `[i32; 2]` of the step |
| Directions.OrdinalDirection.ToTuple | banana-direction/src/ordinal.rs:179-189 | `(i32, i32)` of the step |
| DirectionLaws.OrdinalRotations | banana-direction/src/ordinal.rs:46-80 | `opposite` is an involution; the quarter turns are mutual inverses |
| DirectionLaws.OrdinalEmbedding | banana-direction/src/ordinal.rs:24-44 | `direction` is injective onto the non-cardinal `Direction`s, and `from_unit_coord` inverts `coord` |
| DirectionLaws.CardinalsRoundTrip | banana-direction/src/ordinal.rs:118-152 | `from_cardinals(a, b) == Some(o)` iff `(a, b)` or `(b, a)` is `to_cardinals(o)` |
| DirectionLaws.FromCardinalsCoord | banana-direction/src/ordinal.rs:118-141 | the diagonal's step is the sum of the two cardinal steps |
| Directions.CardinalPairWithinCardinals | banana-direction/src/cardinal.rs:8-11 | the bits of two cardinal directions lie within the cardinal mask |
| Directions.Direction.Bitmap | banana-direction/src/direction.rs:156-158 | the set holding exactly this direction |
| DirectionLaws.BitmapSingleton | banana-direction/src/bitmap.rs:43-45 | a direction's own set holds exactly it, and its raw bit is `2^index` |
| Directions.DirectionBitmap.Has | banana-direction/src/bitmap.rs:43-45 | whether the direction's bit `1 << index` is set; `Direction.Bitmap`, `And`, `Or`, `Default`, `IsEmpty` and `IsFull` state what it holds |
| Directions.DirectionBitmap.Default | banana-direction/src/bitmap.rs:65-67 | holds no direction |
| Directions.DirectionBitmap.IsEmpty | banana-direction/src/bitmap.rs:47-49 | true iff no direction is held |
| Directions.DirectionBitmap.IsFull | banana-direction/src/bitmap.rs:51-53 | true iff every direction is held |
| Directions.DirectionBitmap.And | banana-direction/src/bitmap.rs:55-57 | holds a direction iff both sides do |
| Directions.DirectionBitmap.Or | banana-direction/src/bitmap.rs:59-61 | holds a direction iff either side does |
| Directions.DirectionBitmap.OrAssign | banana-direction/src/bitmap.rs:78-80 | the new value is `self.or(rhs)` |
| Directions.DirectionBitmap.AndAssign | banana-direction/src/bitmap.rs:91-93 | the new value is `self.and(rhs)` |
| Directions.NoBitSetIsZero | banana-direction/src/bitmap.rs:47-49 | no direction bit is set iff the byte is 0 |
| Directions.AllBitsSetIsFull | banana-direction/src/bitmap.rs:51-53 | all eight bits are set iff the byte is `0xff` |
| Directions.DirectionBitmap.Empty | banana-direction/src/bitmap.rs:28-30 | the byte 0; `DirectionLaws.EmptyAndFullBitmaps` shows it holds no direction |
| Directions.DirectionBitmap.All | banana-direction/src/bitmap.rs:32-34 | the byte `0xff`; `DirectionLaws.EmptyAndFullBitmaps` shows it holds every direction |
| Directions.DirectionBitmap.AllCardinal | banana-direction/src/bitmap.rs:36-38 | the cardinal mask; `DirectionLaws.CardinalBitmapHas` shows it holds exactly the cardinal directions |
| Directions.DirectionBitmap.AllOrdinal | banana-direction/src/bitmap.rs:39-41 | the ordinal mask; `DirectionLaws.OrdinalBitmapHas` shows it holds exactly the ordinal directions |
| DirectionLaws.EmptyAndFullBitmaps | banana-direction/src/bitmap.rs:4-10 | `empty()` is empty and holds nothing, `all()` is full and holds everything, `default()` is `empty()` |
| DirectionLaws.CardinalBitmapHas | banana-direction/src/cardinal.rs:8-11 | the cardinal set holds exactly the cardinal directions |
| DirectionLaws.OrdinalBitmapHas | banana-direction/src/ordinal.rs:8-11 | the ordinal set holds exactly the ordinal directions |
| DirectionLaws.CardinalOrdinalPartition | banana-direction/src/bitmap.rs:11-14 | the cardinal and ordinal sets are disjoint and together make up `all()` |
| DirectionTables.AllDirections | banana-direction/src/lib.rs:45-50 | the eight directions in discriminant order |
| DirectionTables.DirectionTable.NewFn | banana-direction/src/table.rs:33-42 | the closure is called once per direction in discriminant order, its state threaded through, and entry `i` is the result of call `i` |
| DirectionTables.DirectionTable.Get | banana-direction/src/table.rs:52-54 | the entry at the direction's discriminant, one of the table's entries; after `set(d, v)` it is `v` (see `Set`) |
| DirectionTables.DirectionTable.NewClone | banana-direction/src/table.rs:82-91 | every entry is the value |
| DirectionTables.DirectionTable.NewDefault | banana-direction/src/table.rs:95-104 | every entry is the default |
| DirectionTables.DirectionTable.Set | banana-direction/src/table.rs:48-50 | `get(d)` is the new value and every other entry is unchanged |
| DirectionTables.DirectionTable.GetMut | banana-direction/src/table.rs:56-58 | a write through the reference changes only entry `d` (also `IndexMut`) |
| DirectionTables.DirectionTable.Enumerate | banana-direction/src/table.rs:72-74 | eight pairs in discriminant order, each direction with its entry |
| DirectionTables.CardinalDirectionTable.NewFn | banana-direction/src/table.rs:33-42 | the closure is called once per direction in discriminant order, its state threaded through, and entry `i` is the result of call `i` |
| DirectionTables.CardinalDirectionTable.Get | banana-direction/src/table.rs:52-54 | the entry at the direction's discriminant, one of the table's entries; after `set(d, v)` it is `v` (see `Set`) |
| DirectionTables.CardinalDirectionTable.Set | banana-direction/src/table.rs:48-50 | `get(d)` is the new value and every other entry is unchanged |
| DirectionTables.CardinalDirectionTable.Enumerate | banana-direction/src/table.rs:72-74 | four pairs in discriminant order, each direction with its entry |
| DirectionTables.OrdinalDirectionTable.NewFn | banana-direction/src/table.rs:33-42 | the closure is called once per direction in discriminant order, its state threaded through, and entry `i` is the result of call `i` |
| DirectionTables.OrdinalDirectionTable.Get | banana-direction/src/table.rs:52-54 | the entry at the direction's discriminant, one of the table's entries; after `set(d, v)` it is `v` (see `Set`) |
| DirectionTables.OrdinalDirectionTable.Set | banana-direction/src/table.rs:48-50 | `get(d)` is the new value and every other entry is unchanged |
| DirectionTables.OrdinalDirectionTable.Enumerate | banana-direction/src/table.rs:72-74 | four pairs in discriminant order, each direction with its entry |
| DirectionTables.CardinalDirectionTable.NewClone | banana-direction/src/table.rs:82-91 | every entry is the value |
| DirectionTables.CardinalDirectionTable.NewDefault | banana-direction/src/table.rs:95-104 | every entry is the default |
| DirectionTables.CardinalDirectionTable.GetMut | banana-direction/src/table.rs:56-58 | a write through the reference changes only entry `d` |
| DirectionTables.OrdinalDirectionTable.NewClone | banana-direction/src/table.rs:82-91 | every entry is the value |
| DirectionTables.OrdinalDirectionTable.NewDefault | banana-direction/src/table.rs:95-104 | every entry is the default |
| DirectionTables.OrdinalDirectionTable.GetMut | banana-direction/src/table.rs:56-58 | a write through the reference changes only entry `d` |
| DirectionTables.IdentityTableEnumerate | banana-direction/src/lib.rs:54-68 | `new_fn(\|d\| d)` enumerates every direction paired with itself |
| DirectionTables.IdentityCardinalTableEnumerate | banana-direction/src/lib.rs:54-68 | the same for the cardinal table |
| DirectionTables.IdentityOrdinalTableEnumerate | banana-direction/src/lib.rs:54-68 | the same for the ordinal table |
| DirectionTables.NewFnStateless | banana-direction/src/table.rs:33-42 | with a closure that keeps no state, the entry of each direction `d` is `f(d)` |
| DirectionTables.CardinalNewFnStateless | banana-direction/src/table.rs:33-42 | the same for the cardinal table |
| DirectionTables.OrdinalNewFnStateless | banana-direction/src/table.rs:33-42 | the same for the ordinal table |
| DirectionTables.NewFnCountsDiscriminants | banana-direction/src/table.rs:33-42 | a closure counting its calls stores each direction's discriminant in its entry, so the calls follow the discriminants |
| DirectionIters.DirectionIter.Next | banana-direction/src/iter.rs:21-23 | the direction at `start`, advancing it; `None` once the range is exhausted, changing nothing |
| DirectionIters.DirectionIter.constructor | banana-direction/src/iter.rs:13-15 | a fresh iterator starts at discriminant 0 |
| DirectionIters.CardinalDirectionIter.constructor | banana-direction/src/iter.rs:13-15 | a fresh iterator starts at discriminant 0 |
| DirectionIters.CardinalDirectionIter.Next | banana-direction/src/iter.rs:21-23 | the cardinal direction at `start`, advancing it; `None` once the range is exhausted, changing nothing |
| DirectionIters.OrdinalDirectionIter.constructor | banana-direction/src/iter.rs:13-15 | a fresh iterator starts at discriminant 0 |
| DirectionIters.OrdinalDirectionIter.Next | banana-direction/src/iter.rs:21-23 | the ordinal direction at `start`, advancing it; `None` once the range is exhausted, changing nothing |
| DirectionIters.DirectionCardinalIter.constructor | banana-direction/src/iter.rs:54-58 | wraps a fresh cardinal iterator at discriminant 0 |
| DirectionIters.DirectionCardinalIter.Next | banana-direction/src/iter.rs:62-64 | the inner cardinal item mapped through `direction` |
| DirectionIters.DirectionOrdinalIter.constructor | banana-direction/src/iter.rs:54-58 | wraps a fresh ordinal iterator at discriminant 0 |
| DirectionIters.DirectionOrdinalIter.Next | banana-direction/src/iter.rs:62-64 | the inner ordinal item mapped through `direction` |
| DirectionIters.CollectDirections | banana-direction/src/lib.rs:45-50 | `N, NE, E, SE, S, SW, W, NW`, each once, then `None` |
| DirectionIters.CollectCardinalDirections | banana-direction/src/lib.rs:29-35 | `North, East, South, West` |
| DirectionIters.CollectOrdinalDirections | banana-direction/src/lib.rs:37-43 | `NorthEast, SouthEast, SouthWest, NorthWest` |
| DirectionIters.CollectDirectionsCardinal | banana-direction/src/iter.rs:83-88 | the four cardinal `Direction`s in order, all cardinal |
| DirectionIters.CollectDirectionsOrdinal | banana-direction/src/iter.rs:89-94 | the four ordinal `Direction`s in order, all ordinal |
| Rects.Rect.Width | banana-geometry/src/shapes/rect/mod.rs:111-113 | the distance from `min.x` to `max.x` |
| Rects.Rect.Height | banana-geometry/src/shapes/rect/mod.rs:118-120 | the distance from `min.y` to `max.y` |
| Rects.Rect.Size | banana-geometry/src/shapes/rect/mod.rs:125-127 | `(width, height)`, and `min + size == max` |
| Rects.Rect.HalfSize | banana-geometry/src/shapes/rect/mod.rs:132-134 | each component is half the extent, rounded toward zero |
| Rects.Rect.IsEmpty | banana-geometry/src/shapes/rect/mod.rs:104-106 | true iff the width or the height is at most 0 |
| Rects.Rect.Center | banana-geometry/src/shapes/rect/mod.rs:139-141 | twice the center is the corner sum rounded toward zero, and for ordered corners it lies between them |
| Rects.Rect.Contains | banana-geometry/src/shapes/rect/mod.rs:145-151 | `min <= p <= max` componentwise, both edges included |
| Rects.Rect.PointSet | banana-geometry/src/shapes/rect/mod.rs:182-190 | exactly the points of `[min.x, max.x) x [min.y, max.y)` |
| Rects.PointSetWithinContains | banana-geometry/src/shapes/rect/mod.rs:145-190 | the whole point set is contained; a non-empty rectangle contains `max`, which the point set leaves out |
| Rects.New | banana-geometry/src/shapes/rect/mod.rs:43-49 | `min` is the top corner and the size is the one given |
| Rects.FromCorners | banana-geometry/src/shapes/rect/mod.rs:56-63 | stores the two points as `min` and `max` unchanged; ordered iff `a <= b` |
| Rects.FromCornersUnordered | banana-geometry/src/shapes/rect/mod.rs:50-63 | counterexample: the opposite corners `(10,10)`, `(0,0)` give an empty rectangle containing neither corner nor the midpoint `(5,5)`, where the ordered one contains `(5,5)` |
| Rects.FromOppositeCorners | banana-geometry/src/shapes/rect/mod.rs:50-63 | corrected: ordered, containing both corners and exactly the points between them |
| Rects.FromCenterHalfSize | banana-geometry/src/shapes/rect/mod.rs:90-99 | ordered, its size twice the half-size, its center the given `origin` |
| Rects.FromCenterSize | banana-geometry/src/shapes/rect/mod.rs:71-82 | ordered with its center at the given `origin`; each extent is the requested one, or one less when it is odd |
| Rects.Rect.Intersects | banana-geometry/src/shapes/rect/mod.rs:156-163 | for ordered rectangles, true iff the lower corner of the overlap lies in both |
| Rects.IntersectsSymmetric | banana-geometry/src/shapes/rect/mod.rs:156-163 | `intersects` is symmetric |
| Rects.IntersectsCommonPoint | banana-geometry/src/shapes/rect/mod.rs:156-163 | for ordered rectangles, `intersects` holds iff some point is contained in both |
| Rects.RectDimensionExamples | banana-geometry/src/shapes/rect/mod.rs:229-257 | `new([0,0],[10,10])` is 10 by 10 with center `(5,5)` |
| Rects.RectContainmentExamples | banana-geometry/src/shapes/rect/mod.rs:259-264 | `new([0,0],[10,10])` contains `(5,5)` but not `(100,100)` |
| Rects.RectIntersectionExample | banana-geometry/src/shapes/rect/mod.rs:243-250 | `new([0,0],[10,10])` meets `new([5,5],[10,10])` |
| Rects.RectDisjointExample | banana-geometry/src/shapes/rect/mod.rs:243-250 | `new([0,0],[10,10])` does not meet `new([100,100],[5,5])` |
| Rects.PointSetExample | banana-geometry/src/shapes/rect/mod.rs:266-273 | the point set of `new([0,0],[1,1])` holds `(0,0)` but none of the other three corners |
| RectArith.Neg | banana-geometry/src/shapes/rect/arithmitic.rs:7-12 | both corners negated |
| RectArith.NegInvolution | banana-geometry/src/shapes/rect/arithmitic.rs:7-12 | negating twice gives back the rectangle |
| RectArith.NegEmpties | banana-geometry/src/shapes/rect/arithmitic.rs:7-12 | negating a non-empty ordered rectangle gives an empty, unordered one |
| RectArith.Add | banana-geometry/src/shapes/rect/arithmitic.rs:15-20 | corners added pairwise, so sizes add |
| RectArith.Sub | banana-geometry/src/shapes/rect/arithmitic.rs:43-48 | corners subtracted pairwise |
| RectArith.AddSubInverse | banana-geometry/src/shapes/rect/arithmitic.rs:15-48 | `(r + q) - q == r`, and `+` is commutative |
| RectArith.AddExample | banana-geometry/src/shapes/rect/mod.rs:236-240 | `[0,0]..[10,10] + [1,1]..[1,1] == [1,1]..[11,11]` |
| RectArith.AddPoint | banana-geometry/src/shapes/rect/arithmitic.rs:22-31 | as written, both coordinates of both corners move by `p.x` |
| RectArith.SubPoint | banana-geometry/src/shapes/rect/arithmitic.rs:50-59 | as written, both coordinates of both corners move back by `p.x` |
| RectArith.AddPointIgnoresY | banana-geometry/src/shapes/rect/arithmitic.rs:22-31 | counterexample: adding `(0, 5)` leaves the rectangle in place, where translation moves it |
| RectArith.Translate | banana-geometry/src/shapes/rect/arithmitic.rs:22-31 | corrected `r + p`: the size is kept and `q` is in `r` iff `q + p` is in the result |
| RectArith.PointShiftInverse | banana-geometry/src/shapes/rect/arithmitic.rs:22-59 | subtracting a point undoes adding it, as written and as translated |
| RectArith.AddPointOnDiagonal | banana-geometry/src/shapes/rect/arithmitic.rs:22-59 | on points `(k, k)` the written operators equal translation |
| RectArith.Mul | banana-geometry/src/shapes/rect/arithmitic.rs:71-76 | corners multiplied pairwise, componentwise |
| RectArith.MulPoint | banana-geometry/src/shapes/rect/arithmitic.rs:78-87 | both corners scaled by the point componentwise |
| RectArith.Div | banana-geometry/src/shapes/rect/arithmitic.rs:100-105 | corners divided pairwise with truncation; zero divisors are excluded |
| RectArith.DivPoint | banana-geometry/src/shapes/rect/arithmitic.rs:107-116 | both corners divided by the point with truncation; zero components are excluded |
| RectArith.MulDivInverse | banana-geometry/src/shapes/rect/arithmitic.rs:78-116 | scaling by a point without zero components and dividing again gives back the rectangle |
| RectArith.MulDivRectInverse | banana-geometry/src/shapes/rect/arithmitic.rs:71-105 | multiplying by a rectangle without zero components and dividing by it again gives back the rectangle |
| RectArith.PointRectOperators | banana-geometry/src/shapes/rect/arithmitic.rs:71-116 | `*` and `/` with the rectangle whose corners are both `p` are `*` and `/` with `p` |
| RectArith.AddAssign | banana-geometry/src/shapes/rect/arithmitic.rs:33-40 | `self` becomes `self + rhs` |
| RectArith.AddAssignPoint | banana-geometry/src/shapes/rect/arithmitic.rs:33-40 | `self` becomes `self + p` as written |
| RectArith.SubAssign | banana-geometry/src/shapes/rect/arithmitic.rs:61-68 | `self` becomes `self - rhs` |
| RectArith.SubAssignPoint | banana-geometry/src/shapes/rect/arithmitic.rs:61-68 | `self` becomes `self - p` as written |
| RectArith.MulAssign | banana-geometry/src/shapes/rect/arithmitic.rs:89-96 | `self` becomes `self * rhs` |
| RectArith.MulAssignPoint | banana-geometry/src/shapes/rect/arithmitic.rs:89-96 | `self` becomes `self * p` |
| RectArith.DivAssign | banana-geometry/src/shapes/rect/arithmitic.rs:118-125 | `self` becomes `self / rhs` |
| RectArith.DivAssignPoint | banana-geometry/src/shapes/rect/arithmitic.rs:118-125 | `self` becomes `self / p` |
| RectIter.Advance | banana-geometry/src/shapes/rect/iter.rs:33-37 | one step right, or the start of the next row once `x` reaches the row width |
| RectIter.RectPointIter.constructor | banana-geometry/src/shapes/rect/iter.rs:17-22 | `size == max - min` and `curr == (0, 0)` |
| RectIter.RectPointIter.Next | banana-geometry/src/shapes/rect/iter.rs:28-40 | `None` with the state unchanged once `curr >= max` in any component, else `min + curr` with `curr` advanced |
| RectIter.IntoIter | banana-geometry/src/shapes/rect/iter.rs:43-56 | the iterator built from the rectangle's two corners |
| RectIter.RowMajor | banana-geometry/src/shapes/rect/iter.rs:28-40 | `w*h` points, step `i` being `min + (i % w, i / w)` |
| RectIter.Yields | banana-geometry/src/shapes/rect/iter.rs:28-40 | what the iterator as written yields: points at or beyond `min` componentwise |
| RectIter.YieldsWithinSize | banana-geometry/src/shapes/rect/iter.rs:28-40 | what the corrected iterator yields: points of the half-open rectangle only |
| RectIter.ForEach | banana-geometry/src/shapes/rect/mod.rs:193-198 | always terminates, handing the callback exactly `Yields(min, max)` in order |
| RectIter.FromOriginAgrees | banana-geometry/src/shapes/rect/iter.rs:17-40 | from `(0,0)` to positive `max`: the `max.x*max.y` points of `[0,max.x) x [0,max.y)` in row-major order |
| RectIter.ForEachExample | banana-geometry/src/shapes/rect/mod.rs:276-288 | `for_each` on `new([0,0],[1,1])` visits only `(0,0)` |
| RectIter.YieldsPastRect | banana-geometry/src/shapes/rect/iter.rs:29-31 | counterexample: from `(1,1)` to `(2,2)` it yields `(1,2)` too, outside the rectangle |
| RectIter.RectPointIter.NextWithinSize | banana-geometry/src/shapes/rect/iter.rs:28-40 | corrected `next`: the same step, stopping once `curr >= size` |
| RectIter.ForEachWithinSize | banana-geometry/src/shapes/rect/mod.rs:193-198 | the corrected walk hands the callback the rows of the rectangle in order |
| RectIter.WithinSizeIsPointSet | banana-geometry/src/shapes/rect/mod.rs:182-198 | the corrected walk visits exactly `point_set` |
| Canvases.Canvas.constructor | banana-utils/src/canvas.rs:9-13 | `count` spaces, with the size kept |
| Canvases.Canvas.ToIndex | banana-utils/src/canvas.rs:20-24 | `y*w + x` for non-negative points; a negative `x`, or a negative `y` with a non-zero width, wraps to an index of at least `2^64 - 2^31` |
| Canvases.ToIndexInRange | banana-utils/src/canvas.rs:20-24 | the index is inside the text iff both coordinates are non-negative and `y*w + x < w*h` |
| Canvases.ToIndexInjective | banana-utils/src/canvas.rs:20-24 | distinct valid points get distinct indices |
| Canvases.LowByte | banana-utils/src/canvas.rs:15-18 | `glyph as u8`, the identity on code points below 256 |
| Canvases.Stored | banana-utils/src/canvas.rs:15-18 | the ASCII character of the low byte, which is the glyph itself when it is ASCII |
| Canvases.Canvas.Put | banana-utils/src/canvas.rs:15-18 | only the character at `to_index(p)` changes, to the stored glyph; length, size and ASCII-ness are kept |
| Canvases.PrintTestExample | banana-utils/src/canvas.rs:43-52 | a 10x5 canvas with stars on the diagonal from `(1,1)` to `(4,4)` has them at 11, 22, 33, 44 and spaces elsewhere |

## Left out

- `banana-grid/src/grids/grid_2d.rs` forwards every operation to `ndarray`, whose behaviour is not part of this model.
- `banana-geometry/src/distance.rs` works on `f32` with `sqrt` and `powf`; floating point is not modelled.
- `banana-geometry/src/rect.rs`, `size.rs` and `coord.rs` are not in the crate's module tree.
- `PointIterRowMajor` and `UVec2::try_new` are not part of this model. Row-major enumeration is `FlatGrid.RowMajorPoint(w, i) = (i % w, i / w)`, and `Axis::try_new_size` is not modelled.
- `FlatGrid.CountNeighbors` requires an interior point. At the border the source casts `x - 1` to `usize` with no bounds check per neighbour, and its behaviour there is not modelled.
- `Grid::iter`, `iter_mut`, `point_iter`, `data`, `rows_mut`, `cols_mut` and `iter_column_mut` are plain adaptors over the cell vector. The mutable forms hand out references into the vector; the model represents writes as a function applied to a cell (`GetMut`, `GetMutChecked`, `IndexAtMut`, `DirectionTable.GetMut`), not as aliasing references.
- `FlatGrid.Grid.IterRowsMut` returns the rows by value, not as mutable slices into the grid.
- FlatGrid.Grid.IterRowsMut: requires the range's start to be at most its last index. Otherwise `end - start + 1` underflows `usize` (grid.rs:253) and the source panics.
- GridLike.RangeToStartEnd: requires an excluded end to be positive. For an excluded end of 0, `*end - 1` underflows `usize` (grid_like.rs:98) and the source panics.
- The tables' `new_array`, `iter`, `iter_mut`, `directions` and `enumerate_mut` are direct views of the value array or the direction iterators, and are not modelled separately.
- `RectIter.ForEach` models the `FnMut` callback as the sequence of points it receives.
- GridPoint.NormalizePart: sizes above `i32::MAX` are excluded. There `size as i32` is negative, and the source's `%` panics on `i32::MIN % -1` or its correction `value + size as i32` overflows.
- GridPoint.Normalize: excluded for sizes above `i32::MAX`, for the same reason as `NormalizePart`.
- RectArith.Mul: the `i32` products are unbounded here. In the source they overflow, panicking in debug builds and wrapping in release builds.
- RectArith.MulPoint: the `i32` products are unbounded here, as for `Mul`.
- RectArith.Div: `i32::MIN / -1` panics in the source; here it gives `2^31`.
- RectArith.DivPoint: `i32::MIN / -1` panics in the source; here it gives `2^31`.
- The `FnMut` closures of `Grid::new_fn`, `new_grid_map`, `map` and the tables' `new_fn` are modelled as functions of their captured state (`Generators.Run`). Effects of a closure beyond that state (I/O, panics) are not modelled. The state left after the last call is not returned; a caller that passes `&mut f` sees it in the source.
- Most machine-integer wrap-around is replaced by preconditions or unbounded arithmetic:
  - `i32` additions in rectangle and direction arithmetic;
  - the `u32` product in `count`;
  - the `usize` arithmetic of `as_index` and `to_index`.

  The casts themselves are modelled where they decide a result: `try_index_to_pt`, `count_neighbors` and `to_index`.
- `Canvases.Canvas.ToIndex`: the `usize` product and sum are unbounded here. A negative coordinate whose wrapped index overflows `usize` is therefore simply past the end of the text, and `put` is refused there.
- The random `Distribution` impls, `MaybeUninit` in the tables (modelled as array allocation followed by initialisation), and the serde derives.
- `Canvas::print` is console output. The benchmark harness is not part of this model.
- `Rect::corner` picks a corner convention (which sign of `y` is "top") that the rest of the library does not use; it is not modelled.
- The generic `Size2d` and `GridPoint` arguments are taken as `UVec2` and `IVec2`. The other implementations (tuples and arrays) differ only in storage, and `GridPoint.ConversionsRoundTrip` relates them.
- `FlatGrid.Grid.IterRows` requires the range's start to be at most the height. Slicing from a later start panics in the source.

## Findings

| source | as written | input that shows it | evidently intended | confidence | as-written member | corrected member |
|---|---|---|---|---|---|---|
| banana-grid/src/grid_like.rs:76-85 | `try_index_to_pt` casts `x` and `y` to `i32` before testing the bounds | a 1x1 grid and index `2^32`: the row `2^32` wraps to 0 and `(0, 0)` is returned | `None` for every index at or past `len()` | medium (not executed) | GridLike.TryIndexToPtWraps | GridLike.TryIndexToPtCheckedCorrect |
| banana-grid/src/grids/grid.rs:221-223 | `cols()` is `chunks(width)`, identical to `rows()` | a 2x1 grid: `cols()` yields the one row `[c0, c1]` | the `width` columns `[c0]`, `[c1]` | high (not executed) | FlatGrid.ColsAreRows | FlatGrid.Grid.Columns |
| banana-grid/src/grids/grid.rs:233-242 | `iter_rows` takes `end.saturating_sub(start) + 1` rows, `end` being the last index | the empty range `1..1` on a 4x3 grid yields row 1 | no rows for an empty range | medium (not executed) | FlatGrid.IterRowsEmptyRange | FlatGrid.Grid.IterRowsInRange |
| banana-geometry/src/shapes/rect/arithmitic.rs:22-31 | `r + p` adds `p.x` to both coordinates of both corners (the same for `r - p` at 50-59) | `Rect((0,0),(1,1)) + (0,5)` is unchanged | translation by `p`, giving `Rect((0,5),(1,6))` | high (not executed) | RectArith.AddPointIgnoresY | RectArith.Translate |
| banana-geometry/src/shapes/rect/iter.rs:29-31 | `next` stops when the offset `curr` reaches the corner `max` | `min = (1,1)`, `max = (2,2)` yields `(1,1)` and `(1,2)` | stop when `curr` reaches `size`, yielding only `(1,1)` | high (not executed) | RectIter.YieldsPastRect | RectIter.WithinSizeIsPointSet |
| banana-geometry/src/shapes/rect/mod.rs:50-63 | `from_corners` stores its two points as `min` and `max` unchanged, while its documentation accepts any two opposite corners | corners `(10,10)` and `(0,0)` give an empty rectangle that contains neither corner | order the corners componentwise | medium (not executed) | Rects.FromCornersUnordered | Rects.FromOppositeCorners |
