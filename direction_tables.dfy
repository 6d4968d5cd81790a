/** Fixed-size tables holding one value per direction, one class per direction enum (the
    three instances of the library's table macro). The backing store is an array of the
    enum's size, indexed by the discriminant. Allocation of the array stands for the
    library's uninitialised buffer, so the element type needs a default (`T(0)`); every
    constructor overwrites all entries before the table is used. */
module DirectionTables {
  import opened Directions
  import opened Generators

  /** All eight directions in declaration order, as `Directions` iterates them. */
  function AllDirections(): (r: seq<Direction>)
    ensures |r| == NUM_DIRECTIONS
    ensures forall i :: 0 <= i < |r| ==> r[i].Index() == i
  {
    seq(NUM_DIRECTIONS, i requires 0 <= i < NUM_DIRECTIONS => Direction.FromIndex(i))
  }

  function AllCardinalDirections(): (r: seq<CardinalDirection>)
    ensures |r| == NUM_CARDINAL_DIRECTIONS
    ensures forall i :: 0 <= i < |r| ==> r[i].Index() == i
  {
    seq(NUM_CARDINAL_DIRECTIONS, i requires 0 <= i < NUM_CARDINAL_DIRECTIONS => CardinalDirection.FromIndex(i))
  }

  function AllOrdinalDirections(): (r: seq<OrdinalDirection>)
    ensures |r| == NUM_ORDINAL_DIRECTIONS
    ensures forall i :: 0 <= i < |r| ==> r[i].Index() == i
  {
    seq(NUM_ORDINAL_DIRECTIONS, i requires 0 <= i < NUM_ORDINAL_DIRECTIONS => OrdinalDirection.FromIndex(i))
  }

  /** `Iterator::zip`: pairs up two sequences, as long as the shorter one. */
  function Zip<A, B>(a: seq<A>, b: seq<B>): (r: seq<(A, B)>)
    ensures |r| == if |a| < |b| then |a| else |b|
    ensures forall i :: 0 <= i < |r| ==> r[i] == (a[i], b[i])
  {
    if |a| == 0 || |b| == 0 then [] else [(a[0], b[0])] + Zip(a[1..], b[1..])
  }

  /** `DirectionTable<T>`: one value per direction. */
  class DirectionTable<T(0)> {
    const values: array<T>

    predicate Valid()
    {
      values.Length == NUM_DIRECTIONS
    }

    /** `new_fn`: one call of the closure per direction, in discriminant order; entry `i`
        is the result of call `i`. */
    constructor NewFn<S>(s0: S, f: (S, Direction) -> (S, T))
      ensures Valid() && fresh(values)
      ensures values[..] == Run(s0, AllDirections(), f).1
    {
      var ds := AllDirections();
      var vs := new T[NUM_DIRECTIONS];
      var st := s0;
      for i := 0 to NUM_DIRECTIONS
        invariant (st, vs[..i]) == Run(s0, ds[..i], f)
      {
        RunStep(s0, ds[..i], ds[i], f);
        assert ds[..i + 1] == ds[..i] + [ds[i]];
        var out := f(st, Direction.FromIndex(i));
        st := out.0;
        vs[i] := out.1;
        assert vs[..i + 1] == vs[..i] + [out.1];
      }
      assert ds[..NUM_DIRECTIONS] == ds && vs[..NUM_DIRECTIONS] == vs[..];
      values := vs;
    }

    /** `new_clone`: every entry is the given value. */
    constructor NewClone(value: T)
      ensures Valid() && fresh(values)
      ensures forall i :: 0 <= i < values.Length ==> values[i] == value
    {
      var vs := new T[NUM_DIRECTIONS];
      for i := 0 to NUM_DIRECTIONS
        invariant forall j :: 0 <= j < i ==> vs[j] == value
      {
        vs[i] := value;
      }
      values := vs;
    }

    /** `new_default`: every entry is the type's default, passed in as `dflt`. */
    constructor NewDefault(dflt: T)
      ensures Valid() && fresh(values)
      ensures forall i :: 0 <= i < values.Length ==> values[i] == dflt
    {
      var vs := new T[NUM_DIRECTIONS];
      for i := 0 to NUM_DIRECTIONS
        invariant forall j :: 0 <= j < i ==> vs[j] == dflt
      {
        vs[i] := dflt;
      }
      values := vs;
    }

    /** `get` and `Index`: the entry at the direction's discriminant. */
    function Get(d: Direction): (r: T)
      requires Valid()
      reads values
      ensures r == values[d.Index()] && r in values[..]
    {
      values[d.Index()]
    }

    /** `set`: overwrites one entry. */
    method Set(d: Direction, value: T)
      requires Valid()
      modifies values
      ensures Get(d) == value
      ensures forall e: Direction :: e != d ==> Get(e) == old(Get(e))
    {
      values[d.Index()] := value;
    }

    /** `get_mut` and `IndexMut`: a write through the returned reference, modelled as
        applying `f` to the one entry. */
    method GetMut(d: Direction, f: T -> T)
      requires Valid()
      modifies values
      ensures Get(d) == f(old(Get(d)))
      ensures forall e: Direction :: e != d ==> Get(e) == old(Get(e))
    {
      values[d.Index()] := f(values[d.Index()]);
    }

    /** `enumerate`: every direction in declaration order, with its entry. */
    function Enumerate(): (r: seq<(Direction, T)>)
      requires Valid()
      reads values
      ensures |r| == NUM_DIRECTIONS
      ensures forall i :: 0 <= i < |r| ==> r[i].0.Index() == i
      ensures forall i :: 0 <= i < |r| ==> r[i].1 == Get(r[i].0)
    {
      Zip(AllDirections(), values[..])
    }
  }

  /** `CardinalDirectionTable<T>`: one value per cardinal direction. */
  class CardinalDirectionTable<T(0)> {
    const values: array<T>

    predicate Valid()
    {
      values.Length == NUM_CARDINAL_DIRECTIONS
    }

    constructor NewFn<S>(s0: S, f: (S, CardinalDirection) -> (S, T))
      ensures Valid() && fresh(values)
      ensures values[..] == Run(s0, AllCardinalDirections(), f).1
    {
      var ds := AllCardinalDirections();
      var vs := new T[NUM_CARDINAL_DIRECTIONS];
      var st := s0;
      for i := 0 to NUM_CARDINAL_DIRECTIONS
        invariant (st, vs[..i]) == Run(s0, ds[..i], f)
      {
        RunStep(s0, ds[..i], ds[i], f);
        assert ds[..i + 1] == ds[..i] + [ds[i]];
        var out := f(st, CardinalDirection.FromIndex(i));
        st := out.0;
        vs[i] := out.1;
        assert vs[..i + 1] == vs[..i] + [out.1];
      }
      assert ds[..NUM_CARDINAL_DIRECTIONS] == ds && vs[..NUM_CARDINAL_DIRECTIONS] == vs[..];
      values := vs;
    }

    /** `new_clone`: every entry is the given value. */
    constructor NewClone(value: T)
      ensures Valid() && fresh(values)
      ensures forall i :: 0 <= i < values.Length ==> values[i] == value
    {
      var vs := new T[NUM_CARDINAL_DIRECTIONS];
      for i := 0 to NUM_CARDINAL_DIRECTIONS
        invariant forall j :: 0 <= j < i ==> vs[j] == value
      {
        vs[i] := value;
      }
      values := vs;
    }

    constructor NewDefault(dflt: T)
      ensures Valid() && fresh(values)
      ensures forall i :: 0 <= i < values.Length ==> values[i] == dflt
    {
      var vs := new T[NUM_CARDINAL_DIRECTIONS];
      for i := 0 to NUM_CARDINAL_DIRECTIONS
        invariant forall j :: 0 <= j < i ==> vs[j] == dflt
      {
        vs[i] := dflt;
      }
      values := vs;
    }

    function Get(d: CardinalDirection): (r: T)
      requires Valid()
      reads values
      ensures r == values[d.Index()] && r in values[..]
    {
      values[d.Index()]
    }

    method Set(d: CardinalDirection, value: T)
      requires Valid()
      modifies values
      ensures Get(d) == value
      ensures forall e: CardinalDirection :: e != d ==> Get(e) == old(Get(e))
    {
      values[d.Index()] := value;
    }

    method GetMut(d: CardinalDirection, f: T -> T)
      requires Valid()
      modifies values
      ensures Get(d) == f(old(Get(d)))
      ensures forall e: CardinalDirection :: e != d ==> Get(e) == old(Get(e))
    {
      values[d.Index()] := f(values[d.Index()]);
    }

    function Enumerate(): (r: seq<(CardinalDirection, T)>)
      requires Valid()
      reads values
      ensures |r| == NUM_CARDINAL_DIRECTIONS
      ensures forall i :: 0 <= i < |r| ==> r[i].0.Index() == i
      ensures forall i :: 0 <= i < |r| ==> r[i].1 == Get(r[i].0)
    {
      Zip(AllCardinalDirections(), values[..])
    }
  }

  /** `OrdinalDirectionTable<T>`: one value per ordinal direction. */
  class OrdinalDirectionTable<T(0)> {
    const values: array<T>

    predicate Valid()
    {
      values.Length == NUM_ORDINAL_DIRECTIONS
    }

    constructor NewFn<S>(s0: S, f: (S, OrdinalDirection) -> (S, T))
      ensures Valid() && fresh(values)
      ensures values[..] == Run(s0, AllOrdinalDirections(), f).1
    {
      var ds := AllOrdinalDirections();
      var vs := new T[NUM_ORDINAL_DIRECTIONS];
      var st := s0;
      for i := 0 to NUM_ORDINAL_DIRECTIONS
        invariant (st, vs[..i]) == Run(s0, ds[..i], f)
      {
        RunStep(s0, ds[..i], ds[i], f);
        assert ds[..i + 1] == ds[..i] + [ds[i]];
        var out := f(st, OrdinalDirection.FromIndex(i));
        st := out.0;
        vs[i] := out.1;
        assert vs[..i + 1] == vs[..i] + [out.1];
      }
      assert ds[..NUM_ORDINAL_DIRECTIONS] == ds && vs[..NUM_ORDINAL_DIRECTIONS] == vs[..];
      values := vs;
    }

    /** `new_clone`: every entry is the given value. */
    constructor NewClone(value: T)
      ensures Valid() && fresh(values)
      ensures forall i :: 0 <= i < values.Length ==> values[i] == value
    {
      var vs := new T[NUM_ORDINAL_DIRECTIONS];
      for i := 0 to NUM_ORDINAL_DIRECTIONS
        invariant forall j :: 0 <= j < i ==> vs[j] == value
      {
        vs[i] := value;
      }
      values := vs;
    }

    constructor NewDefault(dflt: T)
      ensures Valid() && fresh(values)
      ensures forall i :: 0 <= i < values.Length ==> values[i] == dflt
    {
      var vs := new T[NUM_ORDINAL_DIRECTIONS];
      for i := 0 to NUM_ORDINAL_DIRECTIONS
        invariant forall j :: 0 <= j < i ==> vs[j] == dflt
      {
        vs[i] := dflt;
      }
      values := vs;
    }

    function Get(d: OrdinalDirection): (r: T)
      requires Valid()
      reads values
      ensures r == values[d.Index()] && r in values[..]
    {
      values[d.Index()]
    }

    method Set(d: OrdinalDirection, value: T)
      requires Valid()
      modifies values
      ensures Get(d) == value
      ensures forall e: OrdinalDirection :: e != d ==> Get(e) == old(Get(e))
    {
      values[d.Index()] := value;
    }

    method GetMut(d: OrdinalDirection, f: T -> T)
      requires Valid()
      modifies values
      ensures Get(d) == f(old(Get(d)))
      ensures forall e: OrdinalDirection :: e != d ==> Get(e) == old(Get(e))
    {
      values[d.Index()] := f(values[d.Index()]);
    }

    function Enumerate(): (r: seq<(OrdinalDirection, T)>)
      requires Valid()
      reads values
      ensures |r| == NUM_ORDINAL_DIRECTIONS
      ensures forall i :: 0 <= i < |r| ==> r[i].0.Index() == i
      ensures forall i :: 0 <= i < |r| ==> r[i].1 == Get(r[i].0)
    {
      Zip(AllOrdinalDirections(), values[..])
    }
  }

  /** With a closure that does not use its state, `new_fn` gives every direction `f` of
      itself. */
  lemma NewFnStateless<S, T>(s0: S, g: (S, Direction) -> (S, T), f: Direction -> T, d: Direction)
    requires forall st, e :: g(st, e) == (st, f(e))
    ensures Run(s0, AllDirections(), g).1[d.Index()] == f(d)
  {
    RunStateless(s0, AllDirections(), g, f);
    assert AllDirections()[d.Index()] == d;
  }

  lemma CardinalNewFnStateless<S, T>(s0: S, g: (S, CardinalDirection) -> (S, T), f: CardinalDirection -> T,
                                     d: CardinalDirection)
    requires forall st, e :: g(st, e) == (st, f(e))
    ensures Run(s0, AllCardinalDirections(), g).1[d.Index()] == f(d)
  {
    RunStateless(s0, AllCardinalDirections(), g, f);
    assert AllCardinalDirections()[d.Index()] == d;
  }

  lemma OrdinalNewFnStateless<S, T>(s0: S, g: (S, OrdinalDirection) -> (S, T), f: OrdinalDirection -> T,
                                    d: OrdinalDirection)
    requires forall st, e :: g(st, e) == (st, f(e))
    ensures Run(s0, AllOrdinalDirections(), g).1[d.Index()] == f(d)
  {
    RunStateless(s0, AllOrdinalDirections(), g, f);
    assert AllOrdinalDirections()[d.Index()] == d;
  }

  /** A closure counting its calls observes the order of `new_fn`: every direction's entry
      is its discriminant. */
  lemma NewFnCountsDiscriminants(d: Direction)
    ensures Run(0, AllDirections(), Counter()).1[d.Index()] == d.Index()
  {
    CounterNumbersCalls(0, AllDirections());
  }

  /** A table built with `new_fn(|d| d)` enumerates every direction paired with itself. */
  method IdentityTableEnumerate() returns (e: seq<(Direction, Direction)>)
    ensures |e| == NUM_DIRECTIONS && forall i :: 0 <= i < |e| ==> e[i].0 == e[i].1
  {
    var id := (u: (), d: Direction) => (u, d);
    var t := new DirectionTable.NewFn((), id);
    forall d: Direction ensures t.Get(d) == d {
      NewFnStateless((), id, x => x, d);
    }
    e := t.Enumerate();
  }

  /** The same for the cardinal table. */
  method IdentityCardinalTableEnumerate() returns (e: seq<(CardinalDirection, CardinalDirection)>)
    ensures |e| == NUM_CARDINAL_DIRECTIONS && forall i :: 0 <= i < |e| ==> e[i].0 == e[i].1
  {
    var id := (u: (), d: CardinalDirection) => (u, d);
    var t := new CardinalDirectionTable.NewFn((), id);
    forall d: CardinalDirection ensures t.Get(d) == d {
      CardinalNewFnStateless((), id, x => x, d);
    }
    e := t.Enumerate();
  }

  /** The same for the ordinal table. */
  method IdentityOrdinalTableEnumerate() returns (e: seq<(OrdinalDirection, OrdinalDirection)>)
    ensures |e| == NUM_ORDINAL_DIRECTIONS && forall i :: 0 <= i < |e| ==> e[i].0 == e[i].1
  {
    var id := (u: (), d: OrdinalDirection) => (u, d);
    var t := new OrdinalDirectionTable.NewFn((), id);
    forall d: OrdinalDirection ensures t.Get(d) == d {
      OrdinalNewFnStateless((), id, x => x, d);
    }
    e := t.Enumerate();
  }
}
