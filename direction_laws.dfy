/** The algebraic laws of the direction tables: rotations and opposites as arithmetic on
    the discriminant, the coordinate tables, the cardinal/ordinal conversions and the
    bitmap constants. */
module DirectionLaws {
  import opened Vec2
  import opened Wrappers
  import opened Directions
  import Axes

  /** Every direction is `FromIndex` of its discriminant: the numbering is a bijection
      onto 0..7 (0..3 for the halves). */
  lemma IndexBijection(d: Direction, c: CardinalDirection, o: OrdinalDirection)
    ensures Direction.FromIndex(d.Index()) == d
    ensures CardinalDirection.FromIndex(c.Index()) == c
    ensures OrdinalDirection.FromIndex(o.Index()) == o
  {
  }

  /** `opposite` is an involution without fixed point, and negates the step. */
  lemma OppositeInvolution(d: Direction)
    ensures d.Opposite().Opposite() == d && d.Opposite() != d
    ensures d.Opposite().Coord() == d.Coord().Neg()
  {
  }

  /** The 45° and 90° rotations undo each other. */
  lemma RotationInverses(d: Direction)
    ensures d.Right45().Left45() == d && d.Left45().Right45() == d
    ensures d.Right90().Left90() == d && d.Left90().Right90() == d
    ensures d.Right135().Left135() == d && d.Left135().Right135() == d
  {
  }

  /** The larger rotations are compositions of the 45° step. */
  lemma RotationCompositions(d: Direction)
    ensures d.Right90() == d.Right45().Right45() && d.Left90() == d.Left45().Left45()
    ensures d.Right135() == d.Right90().Right45() && d.Left135() == d.Left90().Left45()
    ensures d.Opposite() == d.Right90().Right90()
  {
  }

  /** The coordinate table is injective, so `from_unit_coord` inverts it. */
  lemma FromUnitCoordRoundTrip(d: Direction, e: Direction)
    ensures Direction.FromUnitCoord(d.Coord()) == d
    ensures d.Coord() == e.Coord() ==> d == e
  {
  }

  /** Every direction is of exactly one kind, and `cardinal`, `ordinal` and `typ` agree. */
  lemma KindPartition(d: Direction)
    ensures d.IsCardinal() != d.IsOrdinal()
    ensures d.Typ().Cardinal? ==> d.Cardinal() == Some(d.Typ().c)
    ensures d.Typ().Ordinal? ==> d.Ordinal() == Some(d.Typ().o)
    ensures d.IsCardinal() <==> d.Index() % 2 == 0
  {
  }

  /** The cardinal table: `opposite` is an involution and the quarter turns undo each
      other. */
  lemma CardinalRotations(c: CardinalDirection)
    ensures c.Opposite().Opposite() == c && c.Opposite() != c
    ensures c.Right90().Left90() == c && c.Left90().Right90() == c
  {
  }

  /** `direction` embeds the cardinal directions injectively, onto the cardinal ones. */
  lemma CardinalEmbedding(c: CardinalDirection, c': CardinalDirection, d: Direction)
    ensures c.AsDirection() == c'.AsDirection() ==> c == c'
    ensures d.IsCardinal() ==> exists k: CardinalDirection :: k.AsDirection() == d
    ensures CardinalDirection.FromUnitCoord(c.Coord()) == c
  {
    if d.IsCardinal() {
      assert d.Cardinal().value.AsDirection() == d;
    }
  }

  /** The unit step of a cardinal direction is its sign along its axis and zero on the
      other axis, and `axis_and_sign` returns the pair. */
  lemma AxisAndSignAgree(c: CardinalDirection)
    ensures c.AxisAndSign() == (c.Axis(), c.Sign())
    ensures c.Axis() == Axes.Axis.X ==> c.Coord() == IVec2(c.Sign(), 0)
    ensures c.Axis() == Axes.Axis.Y ==> c.Coord() == IVec2(0, c.Sign())
  {
  }

  /** `combine` is commutative and refuses two directions on one axis. */
  lemma CombineCommutative(a: CardinalDirection, b: CardinalDirection)
    ensures a.Combine(b) == b.Combine(a)
    ensures a.Combine(b).None? <==> a.Axis() == b.Axis()
  {
  }

  /** The ordinal table: `opposite` is an involution and the quarter turns undo each
      other. */
  lemma OrdinalRotations(o: OrdinalDirection)
    ensures o.Opposite().Opposite() == o && o.Opposite() != o
    ensures o.Right90().Left90() == o && o.Left90().Right90() == o
  {
  }

  /** `direction` embeds the ordinal directions injectively, onto the non-cardinal ones. */
  lemma OrdinalEmbedding(o: OrdinalDirection, o': OrdinalDirection, d: Direction)
    ensures o.AsDirection() == o'.AsDirection() ==> o == o'
    ensures !o.AsDirection().IsCardinal()
    ensures d.IsOrdinal() ==> exists k: OrdinalDirection :: k.AsDirection() == d
    ensures OrdinalDirection.FromUnitCoord(o.Coord()) == o
  {
    if d.IsOrdinal() {
      assert d.Ordinal().value.AsDirection() == d;
    }
  }

  /** `to_cardinals` and `from_cardinals` are inverse: a diagonal is the combination of
      its two cardinal directions, in either order, and nothing else combines to it. */
  lemma CardinalsRoundTrip(o: OrdinalDirection, a: CardinalDirection, b: CardinalDirection)
    ensures OrdinalDirection.FromCardinals(a, b) == Some(o) <==>
              (a, b) == o.ToCardinals() || (b, a) == o.ToCardinals()
  {
  }

  /** The diagonal of two perpendicular cardinal directions is the sum of their steps. */
  lemma FromCardinalsCoord(a: CardinalDirection, b: CardinalDirection)
    ensures OrdinalDirection.FromCardinals(a, b).Some? ==>
              OrdinalDirection.FromCardinals(a, b).value.Coord() == a.Coord().Add(b.Coord())
  {
  }

  /** A direction's own set holds exactly that direction. */
  lemma BitmapSingleton(d: Direction, e: Direction)
    ensures d.Bitmap().Has(e) <==> d == e
    ensures d.BitmapRaw() == SingleBit(d.Index())
  {
  }

  /** The named sets: the empty one holds nothing and is the default, the full one holds
      everything. */
  lemma EmptyAndFullBitmaps(d: Direction)
    ensures DirectionBitmap.Empty().IsEmpty() && !DirectionBitmap.Empty().Has(d)
    ensures DirectionBitmap.All().IsFull() && DirectionBitmap.All().Has(d)
    ensures DirectionBitmap.Default() == DirectionBitmap.Empty()
  {
    assert DirectionBitmap.Empty().raw == NO_DIRECTIONS_BITMAP_RAW;
    assert DirectionBitmap.All().raw == ALL_DIRECTIONS_BITMAP_RAW;
  }

  /** The cardinal set holds exactly the cardinal directions. */
  lemma CardinalBitmapHas(d: Direction)
    ensures DirectionBitmap.AllCardinal().Has(d) <==> d.IsCardinal()
  {
    match d
    case North =>
    case NorthEast =>
    case East =>
    case SouthEast =>
    case South =>
    case SouthWest =>
    case West =>
    case NorthWest =>
  }

  /** The ordinal set holds exactly the ordinal directions. */
  lemma OrdinalBitmapHas(d: Direction)
    ensures DirectionBitmap.AllOrdinal().Has(d) <==> d.IsOrdinal()
  {
    match d
    case North =>
    case NorthEast =>
    case East =>
    case SouthEast =>
    case South =>
    case SouthWest =>
    case West =>
    case NorthWest =>
  }

  /** The cardinal and ordinal sets partition the full set. */
  lemma CardinalOrdinalPartition()
    ensures DirectionBitmap.AllCardinal().Or(DirectionBitmap.AllOrdinal()) == DirectionBitmap.All()
    ensures DirectionBitmap.AllCardinal().And(DirectionBitmap.AllOrdinal()) == DirectionBitmap.Empty()
  {
  }
}
