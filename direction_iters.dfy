/** The direction iterators. Each holds a `Range<u8>` over the discriminants, `start` and
    `end`; `next` yields the enum value at `start` and advances it. The sub-direction
    iterators wrap a cardinal or ordinal iterator and yield the corresponding `Direction`. */
module DirectionIters {
  import opened Wrappers
  import opened Directions

  /** `DirectionIter`: the eight directions in declaration order. */
  class DirectionIter {
    var start: nat
    var end: nat

    ghost predicate Valid()
      reads this
    {
      start <= end == NUM_DIRECTIONS
    }

    /** `new` (and `Direction::all`, `Directions::into_iter`): the range `0..8`. */
    constructor ()
      ensures Valid() && start == 0
    {
      start := 0;
      end := NUM_DIRECTIONS;
    }

    /** `next`: the direction at `start`, advancing the range, or `None` once the range
        is empty, which leaves it unchanged. */
    method Next() returns (r: Option<Direction>)
      requires Valid()
      modifies this
      ensures Valid() && end == old(end)
      ensures old(start) < end ==> r == Some(Direction.FromIndex(old(start))) && start == old(start) + 1
      ensures old(start) == end ==> r == None && start == old(start)
    {
      if start < end {
        var n := start;
        start := n + 1;
        r := Some(Direction.FromIndex(n));
      } else {
        r := None;
      }
    }
  }

  /** `CardinalDirectionIter`: the four cardinal directions in declaration order. */
  class CardinalDirectionIter {
    var start: nat
    var end: nat

    ghost predicate Valid()
      reads this
    {
      start <= end == NUM_CARDINAL_DIRECTIONS
    }

    constructor ()
      ensures Valid() && start == 0
    {
      start := 0;
      end := NUM_CARDINAL_DIRECTIONS;
    }

    method Next() returns (r: Option<CardinalDirection>)
      requires Valid()
      modifies this
      ensures Valid() && end == old(end)
      ensures old(start) < end ==> r == Some(CardinalDirection.FromIndex(old(start))) && start == old(start) + 1
      ensures old(start) == end ==> r == None && start == old(start)
    {
      if start < end {
        var n := start;
        start := n + 1;
        r := Some(CardinalDirection.FromIndex(n));
      } else {
        r := None;
      }
    }
  }

  /** `OrdinalDirectionIter`: the four ordinal directions in declaration order. */
  class OrdinalDirectionIter {
    var start: nat
    var end: nat

    ghost predicate Valid()
      reads this
    {
      start <= end == NUM_ORDINAL_DIRECTIONS
    }

    constructor ()
      ensures Valid() && start == 0
    {
      start := 0;
      end := NUM_ORDINAL_DIRECTIONS;
    }

    method Next() returns (r: Option<OrdinalDirection>)
      requires Valid()
      modifies this
      ensures Valid() && end == old(end)
      ensures old(start) < end ==> r == Some(OrdinalDirection.FromIndex(old(start))) && start == old(start) + 1
      ensures old(start) == end ==> r == None && start == old(start)
    {
      if start < end {
        var n := start;
        start := n + 1;
        r := Some(OrdinalDirection.FromIndex(n));
      } else {
        r := None;
      }
    }
  }

  /** `DirectionCardinalIter`: the cardinal directions, as `Direction`s. */
  class DirectionCardinalIter {
    const inner: CardinalDirectionIter

    /** `new` (and `CardinalDirection::all_directions`). */
    constructor ()
      ensures fresh(inner) && inner.Valid() && inner.start == 0
    {
      inner := new CardinalDirectionIter();
    }

    /** `next`: the inner iterator's next item, mapped through `direction`. */
    method Next() returns (r: Option<Direction>)
      requires inner.Valid()
      modifies inner
      ensures inner.Valid() && inner.end == old(inner.end)
      ensures old(inner.start) < inner.end ==>
                r == Some(CardinalDirection.FromIndex(old(inner.start)).AsDirection()) &&
                inner.start == old(inner.start) + 1
      ensures old(inner.start) == inner.end ==> r == None && inner.start == old(inner.start)
    {
      var c := inner.Next();
      r := match c
        case Some(c) => Some(c.AsDirection())
        case None => None;
    }
  }

  /** `DirectionOrdinalIter`: the ordinal directions, as `Direction`s. */
  class DirectionOrdinalIter {
    const inner: OrdinalDirectionIter

    /** `new` (and `OrdinalDirection::all_directions`). */
    constructor ()
      ensures fresh(inner) && inner.Valid() && inner.start == 0
    {
      inner := new OrdinalDirectionIter();
    }

    method Next() returns (r: Option<Direction>)
      requires inner.Valid()
      modifies inner
      ensures inner.Valid() && inner.end == old(inner.end)
      ensures old(inner.start) < inner.end ==>
                r == Some(OrdinalDirection.FromIndex(old(inner.start)).AsDirection()) &&
                inner.start == old(inner.start) + 1
      ensures old(inner.start) == inner.end ==> r == None && inner.start == old(inner.start)
    {
      var o := inner.Next();
      r := match o
        case Some(o) => Some(o.AsDirection())
        case None => None;
    }
  }

  /** `Directions.into_iter().collect()`: the eight directions clockwise from North, each
      once; the exhausted iterator then keeps answering `None`. */
  method CollectDirections() returns (s: seq<Direction>, after: Option<Direction>)
    ensures s == [Direction.North, Direction.NorthEast, Direction.East, Direction.SouthEast,
                  Direction.South, Direction.SouthWest, Direction.West, Direction.NorthWest]
    ensures forall i, j :: 0 <= i < j < |s| ==> s[i] != s[j]
    ensures after == None
  {
    var it := new DirectionIter();
    s := [];
    while true
      invariant it.Valid() && |s| == it.start
      invariant forall i :: 0 <= i < |s| ==> s[i] == Direction.FromIndex(i)
      decreases it.end - it.start
    {
      var next := it.Next();
      if next.None? {
        break;
      }
      s := s + [next.value];
    }
    after := it.Next();
  }

  /** `CardinalDirections.into_iter().collect()`: North, East, South, West. */
  method CollectCardinalDirections() returns (s: seq<CardinalDirection>)
    ensures s == [CardinalDirection.North, CardinalDirection.East,
                  CardinalDirection.South, CardinalDirection.West]
  {
    var it := new CardinalDirectionIter();
    s := [];
    while true
      invariant it.Valid() && |s| == it.start
      invariant forall i :: 0 <= i < |s| ==> s[i] == CardinalDirection.FromIndex(i)
      decreases it.end - it.start
    {
      var next := it.Next();
      if next.None? {
        break;
      }
      s := s + [next.value];
    }
  }

  /** `OrdinalDirections.into_iter().collect()`: NorthEast, SouthEast, SouthWest,
      NorthWest. */
  method CollectOrdinalDirections() returns (s: seq<OrdinalDirection>)
    ensures s == [OrdinalDirection.NorthEast, OrdinalDirection.SouthEast,
                  OrdinalDirection.SouthWest, OrdinalDirection.NorthWest]
  {
    var it := new OrdinalDirectionIter();
    s := [];
    while true
      invariant it.Valid() && |s| == it.start
      invariant forall i :: 0 <= i < |s| ==> s[i] == OrdinalDirection.FromIndex(i)
      decreases it.end - it.start
    {
      var next := it.Next();
      if next.None? {
        break;
      }
      s := s + [next.value];
    }
  }

  /** `DirectionsCardinal.into_iter().collect()`: the four cardinal `Direction`s in order,
      every one of them cardinal. */
  method CollectDirectionsCardinal() returns (s: seq<Direction>)
    ensures s == [Direction.North, Direction.East, Direction.South, Direction.West]
    ensures forall i :: 0 <= i < |s| ==> s[i].IsCardinal()
  {
    var it := new DirectionCardinalIter();
    s := [];
    while true
      invariant it.inner.Valid() && |s| == it.inner.start
      invariant forall i :: 0 <= i < |s| ==> s[i] == CardinalDirection.FromIndex(i).AsDirection()
      decreases it.inner.end - it.inner.start
    {
      var next := it.Next();
      if next.None? {
        break;
      }
      s := s + [next.value];
    }
  }

  /** `DirectionsOrdinal.into_iter().collect()`: the four ordinal `Direction`s in order,
      every one of them ordinal. */
  method CollectDirectionsOrdinal() returns (s: seq<Direction>)
    ensures s == [Direction.NorthEast, Direction.SouthEast, Direction.SouthWest, Direction.NorthWest]
    ensures forall i :: 0 <= i < |s| ==> s[i].IsOrdinal()
  {
    var it := new DirectionOrdinalIter();
    s := [];
    while true
      invariant it.inner.Valid() && |s| == it.inner.start
      invariant forall i :: 0 <= i < |s| ==> s[i] == OrdinalDirection.FromIndex(i).AsDirection()
      decreases it.inner.end - it.inner.start
    {
      var next := it.Next();
      if next.None? {
        break;
      }
      s := s + [next.value];
    }
  }
}
