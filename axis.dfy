/** `Axis`: the two axes of the grid, and building points and sizes along an axis. */
module Axes {
  import opened Ints
  import opened Vec2
  import GridPoint

  datatype Axis = X | Y {
    /** `other`: the perpendicular axis. */
    function Other(): (r: Axis)
      ensures r != this
    {
      match this
      case X => Y
      case Y => X
    }

    /** `new_coord`: a point whose coordinate on this axis is `thisAxis`. */
    function NewCoord(thisAxis: int, otherAxis: int): (r: IVec2)
      ensures 0 <= thisAxis <= U32_MAX && 0 <= otherAxis <= U32_MAX ==>
                var s := NewSize(thisAxis, otherAxis); r.x == s.x && r.y == s.y
    {
      match this
      case X => GridPoint.New(thisAxis, otherAxis)
      case Y => GridPoint.New(otherAxis, thisAxis)
    }

    /** `new_size`: a size whose extent along this axis is `thisAxis`. */
    function NewSize(thisAxis: u32, otherAxis: u32): (r: UVec2)
      ensures Size(r) == thisAxis && Other().Size(r) == otherAxis
    {
      match this
      case X => UVec2(thisAxis, otherAxis)
      case Y => UVec2(otherAxis, thisAxis)
    }

    /** `size`: the extent of `size` along this axis. */
    function Size(size: UVec2): (r: u32)
      ensures this == X ==> r == size.x
      ensures this == Y ==> r == size.y
    {
      match this
      case X => size.x
      case Y => size.y
    }
  }

  /** `other` swaps the two axes: it is an involution without fixed point. */
  lemma OtherInvolution(a: Axis)
    ensures a.Other().Other() == a
    ensures a.Other() != a
  {
  }

  /** The extent along X is the width, along Y the height. */
  lemma SizeAlongAxes(s: UVec2)
    ensures Axis.X.Size(s) == s.x && Axis.Y.Size(s) == s.y
  {
  }

  /** Reading back a size built along an axis gives the two extents it was built from. */
  lemma NewSizeRoundTrip(a: Axis, thisAxis: u32, otherAxis: u32)
    ensures a.Size(a.NewSize(thisAxis, otherAxis)) == thisAxis
    ensures a.Other().Size(a.NewSize(thisAxis, otherAxis)) == otherAxis
  {
  }

  /** A point built along X is `(this, other)`, along Y it is `(other, this)`. */
  lemma NewCoordPlacement(thisAxis: int, otherAxis: int)
    ensures Axis.X.NewCoord(thisAxis, otherAxis) == IVec2(thisAxis, otherAxis)
    ensures Axis.Y.NewCoord(thisAxis, otherAxis) == IVec2(otherAxis, thisAxis)
  {
  }
}
