/** The direction algebra: the eight compass directions (clockwise from North), their
    cardinal and ordinal halves, the kind of a direction, and the `u8` set of directions.
    The four kinds refer to each other, so they share one module. Every operation is a
    match table, as in the library; the contracts say what each table amounts to. */
module Directions {
  import opened Vec2
  import opened Wrappers
  import Axes
  import GridPoint

  const NUM_DIRECTIONS: nat := 8
  const NUM_CARDINAL_DIRECTIONS: nat := 4
  const NUM_ORDINAL_DIRECTIONS: nat := 4

  /** A unit step of the grid: both components in -1..1 and not both zero. */
  predicate IsUnitCoord(p: IVec2)
  {
    -1 <= p.x <= 1 && -1 <= p.y <= 1 && p != ZERO
  }

  /** A step along exactly one axis. */
  predicate IsCardinalCoord(p: IVec2)
  {
    IsUnitCoord(p) && (p.x == 0 || p.y == 0)
  }

  /** A diagonal step. */
  predicate IsOrdinalCoord(p: IVec2)
  {
    (p.x == 1 || p.x == -1) && (p.y == 1 || p.y == -1)
  }

  /** `Direction`: the eight directions, numbered 0..7 clockwise from North. The y axis
      points down (South is `(0, 1)`). */
  datatype Direction = North | NorthEast | East | SouthEast | South | SouthWest | West | NorthWest
  {
    /** The `repr(u8)` discriminant. */
    function Index(): (r: nat)
      ensures r < NUM_DIRECTIONS
    {
      match this
      case North => 0
      case NorthEast => 1
      case East => 2
      case SouthEast => 3
      case South => 4
      case SouthWest => 5
      case West => 6
      case NorthWest => 7
    }

    /** The direction with a given discriminant (the `transmute` of the iterators and
        tables). */
    static function FromIndex(i: nat): (r: Direction)
      requires i < NUM_DIRECTIONS
      ensures r.Index() == i
    {
      match i
      case 0 => Direction.North
      case 1 => Direction.NorthEast
      case 2 => Direction.East
      case 3 => Direction.SouthEast
      case 4 => Direction.South
      case 5 => Direction.SouthWest
      case 6 => Direction.West
      case _ => Direction.NorthWest
    }

    /** `from_unit_coord`: the direction of a unit step; any other point panics. */
    static function FromUnitCoord(p: IVec2): (r: Direction)
      requires IsUnitCoord(p)
      ensures r.Coord() == p
    {
      match (p.x, p.y)
      case (1, 0) => Direction.East
      case (-1, 0) => Direction.West
      case (0, 1) => Direction.South
      case (0, -1) => Direction.North
      case (1, 1) => Direction.SouthEast
      case (1, -1) => Direction.NorthEast
      case (-1, 1) => Direction.SouthWest
      case _ => Direction.NorthWest
    }

    /** `opposite`: half a turn, four steps round the compass. */
    function Opposite(): (r: Direction)
      ensures r.Index() == (Index() + 4) % 8
    {
      match this
      case North => Direction.South
      case NorthEast => Direction.SouthWest
      case East => Direction.West
      case SouthEast => Direction.NorthWest
      case South => Direction.North
      case SouthWest => Direction.NorthEast
      case West => Direction.East
      case NorthWest => Direction.SouthEast
    }

    /** `coord`: the unit step towards this direction. */
    function Coord(): (r: IVec2)
      ensures IsUnitCoord(r)
      ensures IsCardinal() <==> IsCardinalCoord(r)
    {
      match this
      case North => IVec2(0, -1)
      case NorthEast => IVec2(1, -1)
      case East => IVec2(1, 0)
      case SouthEast => IVec2(1, 1)
      case South => IVec2(0, 1)
      case SouthWest => IVec2(-1, 1)
      case West => IVec2(-1, 0)
      case NorthWest => IVec2(-1, -1)
    }

    /** `left90`: a quarter turn anticlockwise. */
    function Left90(): (r: Direction)
      ensures r.Index() == (Index() + 6) % 8
    {
      match this
      case North => Direction.West
      case NorthEast => Direction.NorthWest
      case East => Direction.North
      case SouthEast => Direction.NorthEast
      case South => Direction.East
      case SouthWest => Direction.SouthEast
      case West => Direction.South
      case NorthWest => Direction.SouthWest
    }

    /** `right90`: a quarter turn clockwise. */
    function Right90(): (r: Direction)
      ensures r.Index() == (Index() + 2) % 8
    {
      match this
      case North => Direction.East
      case NorthEast => Direction.SouthEast
      case East => Direction.South
      case SouthEast => Direction.SouthWest
      case South => Direction.West
      case SouthWest => Direction.NorthWest
      case West => Direction.North
      case NorthWest => Direction.NorthEast
    }

    /** `left45`: one step anticlockwise. */
    function Left45(): (r: Direction)
      ensures r.Index() == (Index() + 7) % 8
    {
      match this
      case North => Direction.NorthWest
      case NorthEast => Direction.North
      case East => Direction.NorthEast
      case SouthEast => Direction.East
      case South => Direction.SouthEast
      case SouthWest => Direction.South
      case West => Direction.SouthWest
      case NorthWest => Direction.West
    }

    /** `right45`: one step clockwise. */
    function Right45(): (r: Direction)
      ensures r.Index() == (Index() + 1) % 8
    {
      match this
      case North => Direction.NorthEast
      case NorthEast => Direction.East
      case East => Direction.SouthEast
      case SouthEast => Direction.South
      case South => Direction.SouthWest
      case SouthWest => Direction.West
      case West => Direction.NorthWest
      case NorthWest => Direction.North
    }

    /** `left135`: three steps anticlockwise. */
    function Left135(): (r: Direction)
      ensures r.Index() == (Index() + 5) % 8
    {
      match this
      case North => Direction.SouthWest
      case NorthEast => Direction.West
      case East => Direction.NorthWest
      case SouthEast => Direction.North
      case South => Direction.NorthEast
      case SouthWest => Direction.East
      case West => Direction.SouthEast
      case NorthWest => Direction.South
    }

    /** `right135`: three steps clockwise. */
    function Right135(): (r: Direction)
      ensures r.Index() == (Index() + 3) % 8
    {
      match this
      case North => Direction.SouthEast
      case NorthEast => Direction.South
      case East => Direction.SouthWest
      case SouthEast => Direction.West
      case South => Direction.NorthWest
      case SouthWest => Direction.North
      case West => Direction.NorthEast
      case NorthWest => Direction.East
    }

    /** `bitmap_raw`: the single bit of this direction, `1 << index`. */
    function BitmapRaw(): (r: bv8)
      ensures r == SingleBit(Index())
    {
      (1 as bv8) << Index()
    }

    /** `bitmap`: the set holding just this direction. */
    function Bitmap(): (r: DirectionBitmap)
      ensures forall e: Direction :: r.Has(e) <==> e == this
    {
      DirectionBitmap(BitmapRaw())
    }

    /** `is_cardinal`: North, East, South or West, the even discriminants. */
    predicate IsCardinal()
      ensures IsCardinal() <==> Index() % 2 == 0
    {
      this == Direction.North || this == Direction.East || this == Direction.South || this == Direction.West
    }

    /** `is_ordinal`: the four diagonals, the odd discriminants. */
    predicate IsOrdinal()
      ensures IsOrdinal() <==> Index() % 2 == 1
    {
      this == Direction.NorthEast || this == Direction.SouthEast || this == Direction.SouthWest || this == Direction.NorthWest
    }

    /** `typ`: this direction as a cardinal or an ordinal one. */
    function Typ(): (r: DirectionType)
      ensures r.Cardinal? <==> IsCardinal()
      ensures r.Ordinal? <==> IsOrdinal()
      ensures r.AsDirection() == this
    {
      match this
      case North => DirectionType.Cardinal(CardinalDirection.North)
      case NorthEast => DirectionType.Ordinal(OrdinalDirection.NorthEast)
      case East => DirectionType.Cardinal(CardinalDirection.East)
      case SouthEast => DirectionType.Ordinal(OrdinalDirection.SouthEast)
      case South => DirectionType.Cardinal(CardinalDirection.South)
      case SouthWest => DirectionType.Ordinal(OrdinalDirection.SouthWest)
      case West => DirectionType.Cardinal(CardinalDirection.West)
      case NorthWest => DirectionType.Ordinal(OrdinalDirection.NorthWest)
    }

    /** `cardinal`: the cardinal direction this is, if it is one. */
    function Cardinal(): (r: Option<CardinalDirection>)
      ensures r.Some? <==> IsCardinal()
      ensures r.Some? ==> r.value.AsDirection() == this
    {
      match this
      case North => Some(CardinalDirection.North)
      case East => Some(CardinalDirection.East)
      case South => Some(CardinalDirection.South)
      case West => Some(CardinalDirection.West)
      case _ => None
    }

    /** `ordinal`: the ordinal direction this is, if it is one. */
    function Ordinal(): (r: Option<OrdinalDirection>)
      ensures r.Some? <==> IsOrdinal()
      ensures r.Some? ==> r.value.AsDirection() == this
    {
      match this
      case NorthEast => Some(OrdinalDirection.NorthEast)
      case SouthEast => Some(OrdinalDirection.SouthEast)
      case SouthWest => Some(OrdinalDirection.SouthWest)
      case NorthWest => Some(OrdinalDirection.NorthWest)
      case _ => None
    }

    /** `From<Direction> for [i32; 2]`, a table of its own in the library. */
    function ToArray(): (r: seq<int>)
      ensures r == GridPoint.AsArray(Coord())
    {
      match this
      case North => [0, -1]
      case East => [1, 0]
      case South => [0, 1]
      case West => [-1, 0]
      case NorthWest => [-1, -1]
      case NorthEast => [1, -1]
      case SouthEast => [1, 1]
      case SouthWest => [-1, 1]
    }

    /** `From<Direction> for (i32, i32)`. */
    function ToTuple(): (r: (int, int))
      ensures r == GridPoint.AsTuple(Coord())
    {
      match this
      case North => (0, -1)
      case East => (1, 0)
      case South => (0, 1)
      case West => (-1, 0)
      case NorthWest => (-1, -1)
      case NorthEast => (1, -1)
      case SouthEast => (1, 1)
      case SouthWest => (-1, 1)
    }
  }

  /** `DirectionType`: a direction split by kind. */
  datatype DirectionType = Cardinal(c: CardinalDirection) | Ordinal(o: OrdinalDirection)
  {
    /** The direction a kind-tagged value stands for. */
    function AsDirection(): Direction
    {
      match this
      case Cardinal(c) => c.AsDirection()
      case Ordinal(o) => o.AsDirection()
    }
  }

  /** `CardinalDirection`: North, East, South, West, numbered 0..3 clockwise. */
  datatype CardinalDirection = North | East | South | West
  {
    function Index(): (r: nat)
      ensures r < NUM_CARDINAL_DIRECTIONS
    {
      match this
      case North => 0
      case East => 1
      case South => 2
      case West => 3
    }

    static function FromIndex(i: nat): (r: CardinalDirection)
      requires i < NUM_CARDINAL_DIRECTIONS
      ensures r.Index() == i
    {
      match i
      case 0 => CardinalDirection.North
      case 1 => CardinalDirection.East
      case 2 => CardinalDirection.South
      case _ => CardinalDirection.West
    }

    /** `from_unit_coord`: the cardinal direction of an axis step; any other point panics. */
    static function FromUnitCoord(p: IVec2): (r: CardinalDirection)
      requires IsCardinalCoord(p)
      ensures r.Coord() == p
    {
      match (p.x, p.y)
      case (1, 0) => CardinalDirection.East
      case (-1, 0) => CardinalDirection.West
      case (0, 1) => CardinalDirection.South
      case _ => CardinalDirection.North
    }

    /** `direction`: the same direction among all eight, at twice the discriminant. */
    function AsDirection(): (r: Direction)
      ensures r.IsCardinal() && r.Index() == 2 * Index()
    {
      match this
      case North => Direction.North
      case East => Direction.East
      case South => Direction.South
      case West => Direction.West
    }

    /** `opposite`: two steps round. */
    function Opposite(): (r: CardinalDirection)
      ensures r.Index() == (Index() + 2) % 4
      ensures r.AsDirection() == AsDirection().Opposite()
    {
      match this
      case North => CardinalDirection.South
      case East => CardinalDirection.West
      case South => CardinalDirection.North
      case West => CardinalDirection.East
    }

    /** `coord`: the unit step, the same as the direction's. */
    function Coord(): (r: IVec2)
      ensures r == AsDirection().Coord()
    {
      match this
      case North => IVec2(0, -1)
      case East => IVec2(1, 0)
      case South => IVec2(0, 1)
      case West => IVec2(-1, 0)
    }

    function Left90(): (r: CardinalDirection)
      ensures r.Index() == (Index() + 3) % 4
      ensures r.AsDirection() == AsDirection().Left90()
    {
      match this
      case North => CardinalDirection.West
      case East => CardinalDirection.North
      case South => CardinalDirection.East
      case West => CardinalDirection.South
    }

    function Right90(): (r: CardinalDirection)
      ensures r.Index() == (Index() + 1) % 4
      ensures r.AsDirection() == AsDirection().Right90()
    {
      match this
      case North => CardinalDirection.East
      case East => CardinalDirection.South
      case South => CardinalDirection.West
      case West => CardinalDirection.North
    }

    function Left45(): (r: OrdinalDirection)
      ensures r.AsDirection() == AsDirection().Left45()
    {
      match this
      case North => OrdinalDirection.NorthWest
      case East => OrdinalDirection.NorthEast
      case South => OrdinalDirection.SouthEast
      case West => OrdinalDirection.SouthWest
    }

    function Right45(): (r: OrdinalDirection)
      ensures r.AsDirection() == AsDirection().Right45()
    {
      match this
      case North => OrdinalDirection.NorthEast
      case East => OrdinalDirection.SouthEast
      case South => OrdinalDirection.SouthWest
      case West => OrdinalDirection.NorthWest
    }

    function Left135(): (r: OrdinalDirection)
      ensures r.AsDirection() == AsDirection().Left135()
    {
      match this
      case North => OrdinalDirection.SouthWest
      case East => OrdinalDirection.NorthWest
      case South => OrdinalDirection.NorthEast
      case West => OrdinalDirection.SouthEast
    }

    function Right135(): (r: OrdinalDirection)
      ensures r.AsDirection() == AsDirection().Right135()
    {
      match this
      case North => OrdinalDirection.SouthEast
      case East => OrdinalDirection.SouthWest
      case South => OrdinalDirection.NorthWest
      case West => OrdinalDirection.NorthEast
    }

    /** `axis`: the axis this direction moves along. */
    function Axis(): (r: Axes.Axis)
      ensures Coord() == r.NewCoord(Sign(), 0)
    {
      match this
      case East | West => Axes.Axis.X
      case North | South => Axes.Axis.Y
    }

    /** `sign`: +1 towards growing coordinates (East, South), -1 otherwise. */
    function Sign(): (r: int)
      ensures (r == 1 || r == -1) && r == Coord().x + Coord().y
    {
      match this
      case South | East => 1
      case North | West => -1
    }

    /** `axis_and_sign`: both at once, as a table of its own. */
    function AxisAndSign(): (r: (Axes.Axis, int))
      ensures Coord() == r.0.NewCoord(r.1, 0) && (r.1 == 1 || r.1 == -1)
    {
      match this
      case North => (Axes.Axis.Y, -1)
      case East => (Axes.Axis.X, 1)
      case South => (Axes.Axis.Y, 1)
      case West => (Axes.Axis.X, -1)
    }

    /** `combine`: the diagonal between two perpendicular cardinal directions. */
    function Combine(other: CardinalDirection): (r: Option<OrdinalDirection>)
      ensures r.Some? <==> Axis() != other.Axis()
      ensures r == OrdinalDirection.FromCardinals(this, other)
    {
      OrdinalDirection.FromCardinals(this, other)
    }

    /** `From<CardinalDirection> for [i32; 2]`. */
    function ToArray(): (r: seq<int>)
      ensures r == GridPoint.AsArray(Coord())
    {
      match this
      case East => [1, 0]
      case South => [0, 1]
      case West => [-1, 0]
      case North => [0, -1]
    }

    /** `From<CardinalDirection> for (i32, i32)`. */
    function ToTuple(): (r: (int, int))
      ensures r == GridPoint.AsTuple(Coord())
    {
      match this
      case East => (1, 0)
      case South => (0, 1)
      case West => (-1, 0)
      case North => (0, -1)
    }
  }

  /** `OrdinalDirection`: the diagonals NorthEast, SouthEast, SouthWest, NorthWest,
      numbered 0..3 clockwise. */
  datatype OrdinalDirection = NorthEast | SouthEast | SouthWest | NorthWest
  {
    function Index(): (r: nat)
      ensures r < NUM_ORDINAL_DIRECTIONS
    {
      match this
      case NorthEast => 0
      case SouthEast => 1
      case SouthWest => 2
      case NorthWest => 3
    }

    static function FromIndex(i: nat): (r: OrdinalDirection)
      requires i < NUM_ORDINAL_DIRECTIONS
      ensures r.Index() == i
    {
      match i
      case 0 => OrdinalDirection.NorthEast
      case 1 => OrdinalDirection.SouthEast
      case 2 => OrdinalDirection.SouthWest
      case _ => OrdinalDirection.NorthWest
    }

    /** `from_unit_coord`: the ordinal direction of a diagonal step; any other point
        panics. */
    static function FromUnitCoord(p: IVec2): (r: OrdinalDirection)
      requires IsOrdinalCoord(p)
      ensures r.Coord() == p
    {
      match (p.x, p.y)
      case (1, 1) => OrdinalDirection.SouthEast
      case (1, -1) => OrdinalDirection.NorthEast
      case (-1, 1) => OrdinalDirection.SouthWest
      case _ => OrdinalDirection.NorthWest
    }

    /** `direction`: the same direction among all eight, at twice the discriminant
        plus one. */
    function AsDirection(): (r: Direction)
      ensures r.IsOrdinal() && r.Index() == 2 * Index() + 1
    {
      match this
      case NorthEast => Direction.NorthEast
      case SouthEast => Direction.SouthEast
      case SouthWest => Direction.SouthWest
      case NorthWest => Direction.NorthWest
    }

    function Opposite(): (r: OrdinalDirection)
      ensures r.Index() == (Index() + 2) % 4
      ensures r.AsDirection() == AsDirection().Opposite()
    {
      match this
      case NorthEast => OrdinalDirection.SouthWest
      case SouthEast => OrdinalDirection.NorthWest
      case SouthWest => OrdinalDirection.NorthEast
      case NorthWest => OrdinalDirection.SouthEast
    }

    function Coord(): (r: IVec2)
      ensures r == AsDirection().Coord()
    {
      match this
      case NorthEast => IVec2(1, -1)
      case SouthEast => IVec2(1, 1)
      case SouthWest => IVec2(-1, 1)
      case NorthWest => IVec2(-1, -1)
    }

    function Left90(): (r: OrdinalDirection)
      ensures r.Index() == (Index() + 3) % 4
      ensures r.AsDirection() == AsDirection().Left90()
    {
      match this
      case NorthEast => OrdinalDirection.NorthWest
      case SouthEast => OrdinalDirection.NorthEast
      case SouthWest => OrdinalDirection.SouthEast
      case NorthWest => OrdinalDirection.SouthWest
    }

    function Right90(): (r: OrdinalDirection)
      ensures r.Index() == (Index() + 1) % 4
      ensures r.AsDirection() == AsDirection().Right90()
    {
      match this
      case NorthEast => OrdinalDirection.SouthEast
      case SouthEast => OrdinalDirection.SouthWest
      case SouthWest => OrdinalDirection.NorthWest
      case NorthWest => OrdinalDirection.NorthEast
    }

    function Left45(): (r: CardinalDirection)
      ensures r.AsDirection() == AsDirection().Left45()
    {
      match this
      case NorthEast => CardinalDirection.North
      case SouthEast => CardinalDirection.East
      case SouthWest => CardinalDirection.South
      case NorthWest => CardinalDirection.West
    }

    function Right45(): (r: CardinalDirection)
      ensures r.AsDirection() == AsDirection().Right45()
    {
      match this
      case NorthEast => CardinalDirection.East
      case SouthEast => CardinalDirection.South
      case SouthWest => CardinalDirection.West
      case NorthWest => CardinalDirection.North
    }

    function Left135(): (r: CardinalDirection)
      ensures r.AsDirection() == AsDirection().Left135()
    {
      match this
      case NorthEast => CardinalDirection.West
      case SouthEast => CardinalDirection.North
      case SouthWest => CardinalDirection.East
      case NorthWest => CardinalDirection.South
    }

    function Right135(): (r: CardinalDirection)
      ensures r.AsDirection() == AsDirection().Right135()
    {
      match this
      case NorthEast => CardinalDirection.South
      case SouthEast => CardinalDirection.West
      case SouthWest => CardinalDirection.North
      case NorthWest => CardinalDirection.East
    }

    /** `from_cardinals`: the diagonal between two perpendicular cardinal directions, in
        either order; two directions on the same axis have none. */
    static function FromCardinals(a: CardinalDirection, b: CardinalDirection): (r: Option<OrdinalDirection>)
      ensures r.Some? <==> a.Axis() != b.Axis()
    {
      match a
      case North => (match b
        case East => Some(OrdinalDirection.NorthEast)
        case West => Some(OrdinalDirection.NorthWest)
        case _ => None)
      case East => (match b
        case North => Some(OrdinalDirection.NorthEast)
        case South => Some(OrdinalDirection.SouthEast)
        case _ => None)
      case South => (match b
        case East => Some(OrdinalDirection.SouthEast)
        case West => Some(OrdinalDirection.SouthWest)
        case _ => None)
      case West => (match b
        case North => Some(OrdinalDirection.NorthWest)
        case South => Some(OrdinalDirection.SouthWest)
        case _ => None)
    }

    /** `to_cardinals`: the two cardinal directions a diagonal is made of, in clockwise
        order. */
    function ToCardinals(): (r: (CardinalDirection, CardinalDirection))
      ensures FromCardinals(r.0, r.1) == Some(this) && FromCardinals(r.1, r.0) == Some(this)
      ensures r.1 == r.0.Right90()
    {
      match this
      case NorthEast => (CardinalDirection.North, CardinalDirection.East)
      case SouthEast => (CardinalDirection.East, CardinalDirection.South)
      case SouthWest => (CardinalDirection.South, CardinalDirection.West)
      case NorthWest => (CardinalDirection.West, CardinalDirection.North)
    }

    /** `cardinal_bitmap`: the set of the two cardinal directions of this diagonal. */
    function CardinalBitmap(): (r: DirectionBitmap)
      ensures forall d: Direction :: r.Has(d) <==>
                d == ToCardinals().0.AsDirection() || d == ToCardinals().1.AsDirection()
      ensures r.And(ALL_CARDINAL_DIRECTIONS_BITMAP) == r
    {
      var (a, b) := ToCardinals();
      CardinalPairWithinCardinals(a, b);
      a.AsDirection().Bitmap().Or(b.AsDirection().Bitmap())
    }

    /** `From<OrdinalDirection> for [i32; 2]`. */
    function ToArray(): (r: seq<int>)
      ensures r == GridPoint.AsArray(Coord())
    {
      match this
      case NorthWest => [-1, -1]
      case NorthEast => [1, -1]
      case SouthEast => [1, 1]
      case SouthWest => [-1, 1]
    }

    /** `From<OrdinalDirection> for (i32, i32)`. */
    function ToTuple(): (r: (int, int))
      ensures r == GridPoint.AsTuple(Coord())
    {
      match this
      case NorthWest => (-1, -1)
      case NorthEast => (1, -1)
      case SouthEast => (1, 1)
      case SouthWest => (-1, 1)
    }
  }

  /** The byte with only bit `i` set, `2^i`. */
  function SingleBit(i: nat): bv8
    requires i < 8
  {
    match i
    case 0 => 0x01
    case 1 => 0x02
    case 2 => 0x04
    case 3 => 0x08
    case 4 => 0x10
    case 5 => 0x20
    case 6 => 0x40
    case _ => 0x80
  }

  /** The union of two cardinal directions' bits lies within the cardinal set. */
  lemma CardinalPairWithinCardinals(a: CardinalDirection, b: CardinalDirection)
    ensures (a.AsDirection().BitmapRaw() | b.AsDirection().BitmapRaw()) & ALL_CARDINAL_DIRECTION_BITMAP_RAW
              == a.AsDirection().BitmapRaw() | b.AsDirection().BitmapRaw()
  {
    match a
    case North =>
    case East =>
    case South =>
    case West =>
  }

  /** A byte has none of the eight direction bits set iff it is zero. */
  lemma NoBitSetIsZero(raw: bv8)
    ensures (forall d: Direction :: !DirectionBitmap(raw).Has(d)) <==> raw == 0
  {
    if forall d: Direction :: !DirectionBitmap(raw).Has(d) {
      assert !DirectionBitmap(raw).Has(Direction.North) && !DirectionBitmap(raw).Has(Direction.NorthEast);
      assert !DirectionBitmap(raw).Has(Direction.East) && !DirectionBitmap(raw).Has(Direction.SouthEast);
      assert !DirectionBitmap(raw).Has(Direction.South) && !DirectionBitmap(raw).Has(Direction.SouthWest);
      assert !DirectionBitmap(raw).Has(Direction.West) && !DirectionBitmap(raw).Has(Direction.NorthWest);
    }
  }

  /** A byte has all eight direction bits set iff it is `0xff`. */
  lemma AllBitsSetIsFull(raw: bv8)
    ensures (forall d: Direction :: DirectionBitmap(raw).Has(d)) <==> raw == 0xff
  {
    if forall d: Direction :: DirectionBitmap(raw).Has(d) {
      assert DirectionBitmap(raw).Has(Direction.North) && DirectionBitmap(raw).Has(Direction.NorthEast);
      assert DirectionBitmap(raw).Has(Direction.East) && DirectionBitmap(raw).Has(Direction.SouthEast);
      assert DirectionBitmap(raw).Has(Direction.South) && DirectionBitmap(raw).Has(Direction.SouthWest);
      assert DirectionBitmap(raw).Has(Direction.West) && DirectionBitmap(raw).Has(Direction.NorthWest);
    }
    if raw == 0xff {
      forall d: Direction ensures DirectionBitmap(raw).Has(d) {
        match d
        case North =>
        case NorthEast =>
        case East =>
        case SouthEast =>
        case South =>
        case SouthWest =>
        case West =>
        case NorthWest =>
      }
    }
  }

  /** A bit is set in a union iff it is set in either side. */
  lemma OrBit(a: bv8, b: bv8, m: bv8)
    ensures (a | b) & m != 0 <==> a & m != 0 || b & m != 0
  {
  }

  /** A direction's bit is set in an intersection iff it is set in both sides. */
  lemma AndBit(a: bv8, b: bv8, d: Direction)
    ensures (a & b) & d.BitmapRaw() != 0 <==> a & d.BitmapRaw() != 0 && b & d.BitmapRaw() != 0
  {
    match d
    case North =>
    case NorthEast =>
    case East =>
    case SouthEast =>
    case South =>
    case SouthWest =>
    case West =>
    case NorthWest =>
  }

  const NO_DIRECTIONS_BITMAP_RAW: bv8 := 0
  const ALL_DIRECTIONS_BITMAP_RAW: bv8 := 0xff
  const ALL_CARDINAL_DIRECTION_BITMAP_RAW: bv8 :=
    Direction.North.BitmapRaw() | Direction.East.BitmapRaw() | Direction.South.BitmapRaw() | Direction.West.BitmapRaw()
  const ALL_ORDINAL_DIRECTION_BITMAP_RAW: bv8 :=
    Direction.NorthEast.BitmapRaw() | Direction.SouthEast.BitmapRaw() | Direction.SouthWest.BitmapRaw() | Direction.NorthWest.BitmapRaw()

  const ALL_DIRECTIONS_BITMAP: DirectionBitmap := DirectionBitmap(ALL_DIRECTIONS_BITMAP_RAW)
  const NO_DIRECTIONS_BITMAP: DirectionBitmap := DirectionBitmap(NO_DIRECTIONS_BITMAP_RAW)
  const ALL_CARDINAL_DIRECTIONS_BITMAP: DirectionBitmap := DirectionBitmap(ALL_CARDINAL_DIRECTION_BITMAP_RAW)
  const ALL_ORDINAL_DIRECTIONS_BITMAP: DirectionBitmap := DirectionBitmap(ALL_ORDINAL_DIRECTION_BITMAP_RAW)

  /** `DirectionBitmap`: a set of directions, bit `index(d)` standing for `d`. */
  datatype DirectionBitmap = DirectionBitmap(raw: bv8)
  {
    /** `empty`: the set with no bit set. */
    static function Empty(): (r: DirectionBitmap)
      ensures r.raw == 0
    {
      NO_DIRECTIONS_BITMAP
    }

    /** `all`: the set with all eight bits set. */
    static function All(): (r: DirectionBitmap)
      ensures r.raw == 0xff
    {
      ALL_DIRECTIONS_BITMAP
    }

    static function AllCardinal(): DirectionBitmap { ALL_CARDINAL_DIRECTIONS_BITMAP }
    static function AllOrdinal(): DirectionBitmap { ALL_ORDINAL_DIRECTIONS_BITMAP }

    /** `default`: the empty set. */
    static function Default(): (r: DirectionBitmap)
      ensures forall d: Direction :: !r.Has(d)
    {
      Empty()
    }

    /** `has`: the bit of the direction, `1 << index`, is set. */
    predicate Has(d: Direction)
    {
      raw & d.BitmapRaw() != 0
    }

    /** `is_empty`: no direction is in the set. */
    function IsEmpty(): (r: bool)
      ensures r <==> forall d: Direction :: !Has(d)
    {
      NoBitSetIsZero(raw);
      raw == NO_DIRECTIONS_BITMAP_RAW
    }

    /** `is_full`: every direction is in the set. */
    function IsFull(): (r: bool)
      ensures r <==> forall d: Direction :: Has(d)
    {
      AllBitsSetIsFull(raw);
      raw == ALL_DIRECTIONS_BITMAP_RAW
    }

    /** `and`: intersection. */
    function And(rhs: DirectionBitmap): (r: DirectionBitmap)
      ensures forall d: Direction :: r.Has(d) <==> Has(d) && rhs.Has(d)
    {
      forall d: Direction ensures DirectionBitmap(raw & rhs.raw).Has(d) <==> Has(d) && rhs.Has(d) {
        AndBit(raw, rhs.raw, d);
      }
      DirectionBitmap(raw & rhs.raw)
    }

    /** `or`: union. */
    function Or(rhs: DirectionBitmap): (r: DirectionBitmap)
      ensures forall d: Direction :: r.Has(d) <==> Has(d) || rhs.Has(d)
    {
      forall d: Direction ensures DirectionBitmap(raw | rhs.raw).Has(d) <==> Has(d) || rhs.Has(d) {
        OrBit(raw, rhs.raw, d.BitmapRaw());
      }
      DirectionBitmap(raw | rhs.raw)
    }

    /** `|=`: the bitmap after `self.raw |= rhs.raw`. A bitmap is a `Copy` value, so the
        updated value is returned. */
    method OrAssign(rhs: DirectionBitmap) returns (self: DirectionBitmap)
      ensures self == Or(rhs)
    {
      self := this;
      self := self.(raw := self.raw | rhs.raw);
    }

    /** `&=`: the bitmap after `self.raw &= rhs.raw`. */
    method AndAssign(rhs: DirectionBitmap) returns (self: DirectionBitmap)
      ensures self == And(rhs)
    {
      self := this;
      self := self.(raw := self.raw & rhs.raw);
    }
  }
}
