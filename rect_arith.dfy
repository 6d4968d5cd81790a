/** The operators on `Rect`: negation, and `+`, `-`, `*`, `/` with another rectangle
    (corner by corner) or with a point. A `Rect` is a `Copy` value and every `op=` does
    `*self = *self op rhs`, so each assigning form is a method returning the new value. */
module RectArith {
  import opened Ints
  import opened Vec2
  import opened Rects

  /** `-r`: both corners negated. */
  function Neg(r: Rect): (n: Rect)
    ensures n.min == r.min.Neg() && n.max == r.max.Neg()
  {
    Rect(r.min.Neg(), r.max.Neg())
  }

  /** `r + q`: the corners added pairwise. */
  function Add(r: Rect, q: Rect): (s: Rect)
    ensures s.min == r.min.Add(q.min) && s.max == r.max.Add(q.max)
    ensures s.Size() == r.Size().Add(q.Size())
  {
    Rect(r.min.Add(q.min), r.max.Add(q.max))
  }

  /** `r - q`, which is `r + -q`. */
  function Sub(r: Rect, q: Rect): (s: Rect)
    ensures s.min == r.min.Sub(q.min) && s.max == r.max.Sub(q.max)
  {
    Add(r, Neg(q))
  }

  /** `r + p` as written: `min + p.x` and `max + p.x`, so both coordinates move by the
      point's `x` and its `y` is ignored. */
  function AddPoint(r: Rect, p: IVec2): (s: Rect)
    ensures s.min == IVec2(r.min.x + p.x, r.min.y + p.x)
    ensures s.max == IVec2(r.max.x + p.x, r.max.y + p.x)
  {
    Rect(r.min.AddScalar(p.x), r.max.AddScalar(p.x))
  }

  /** `r - p` as written: both coordinates move back by the point's `x`. */
  function SubPoint(r: Rect, p: IVec2): (s: Rect)
    ensures s.min == IVec2(r.min.x - p.x, r.min.y - p.x)
    ensures s.max == IVec2(r.max.x - p.x, r.max.y - p.x)
  {
    Rect(r.min.SubScalar(p.x), r.max.SubScalar(p.x))
  }

  /** `r + p` as evidently intended: the rectangle translated by the point. */
  function Translate(r: Rect, p: IVec2): (s: Rect)
    ensures s.Size() == r.Size()
    ensures forall q :: r.Contains(q) <==> s.Contains(q.Add(p))
  {
    var s := Rect(r.min.Add(p), r.max.Add(p));
    assert forall q: IVec2 :: s.Contains(q.Add(p)) <==> r.Contains(q);
    s
  }

  /** `r * q`: the corners multiplied pairwise, component by component. */
  function Mul(r: Rect, q: Rect): (s: Rect)
    ensures s.min == IVec2(r.min.x * q.min.x, r.min.y * q.min.y)
    ensures s.max == IVec2(r.max.x * q.max.x, r.max.y * q.max.y)
  {
    Rect(r.min.Mul(q.min), r.max.Mul(q.max))
  }

  /** `r * p`: both corners scaled by the point, component by component. */
  function MulPoint(r: Rect, p: IVec2): (s: Rect)
    ensures s.min == IVec2(r.min.x * p.x, r.min.y * p.y)
    ensures s.max == IVec2(r.max.x * p.x, r.max.y * p.y)
  {
    Rect(r.min.Mul(p), r.max.Mul(p))
  }

  /** `r / q`: the corners divided pairwise with truncating division; a zero component
      of either divisor panics. */
  function Div(r: Rect, q: Rect): (s: Rect)
    requires q.min.x != 0 && q.min.y != 0 && q.max.x != 0 && q.max.y != 0
    ensures s.min == IVec2(TDiv(r.min.x, q.min.x), TDiv(r.min.y, q.min.y))
    ensures s.max == IVec2(TDiv(r.max.x, q.max.x), TDiv(r.max.y, q.max.y))
  {
    Rect(r.min.Div(q.min), r.max.Div(q.max))
  }

  /** `r / p`: both corners divided by the point with truncating division; a zero
      component panics. */
  function DivPoint(r: Rect, p: IVec2): (s: Rect)
    requires p.x != 0 && p.y != 0
    ensures s.min == IVec2(TDiv(r.min.x, p.x), TDiv(r.min.y, p.y))
    ensures s.max == IVec2(TDiv(r.max.x, p.x), TDiv(r.max.y, p.y))
  {
    Rect(r.min.Div(p), r.max.Div(p))
  }

  /** `+=` with a rectangle. */
  method AddAssign(self: Rect, rhs: Rect) returns (r: Rect)
    ensures r == Add(self, rhs)
  {
    r := self;
    r := Rect(r.min.Add(rhs.min), r.max.Add(rhs.max));
  }

  /** `+=` with a point, as written. */
  method AddAssignPoint(self: Rect, rhs: IVec2) returns (r: Rect)
    ensures r == AddPoint(self, rhs)
  {
    r := self;
    r := Rect(r.min.AddScalar(rhs.x), r.max.AddScalar(rhs.x));
  }

  /** `-=` with a rectangle. */
  method SubAssign(self: Rect, rhs: Rect) returns (r: Rect)
    ensures r == Sub(self, rhs)
  {
    r := self;
    r := Rect(r.min.Add(rhs.min.Neg()), r.max.Add(rhs.max.Neg()));
  }

  /** `-=` with a point, as written. */
  method SubAssignPoint(self: Rect, rhs: IVec2) returns (r: Rect)
    ensures r == SubPoint(self, rhs)
  {
    r := self;
    r := Rect(r.min.SubScalar(rhs.x), r.max.SubScalar(rhs.x));
  }

  /** `*=` with a rectangle. */
  method MulAssign(self: Rect, rhs: Rect) returns (r: Rect)
    ensures r == Mul(self, rhs)
  {
    r := self;
    r := Rect(r.min.Mul(rhs.min), r.max.Mul(rhs.max));
  }

  /** `*=` with a point. */
  method MulAssignPoint(self: Rect, rhs: IVec2) returns (r: Rect)
    ensures r == MulPoint(self, rhs)
  {
    r := self;
    r := Rect(r.min.Mul(rhs), r.max.Mul(rhs));
  }

  /** `/=` with a rectangle. */
  method DivAssign(self: Rect, rhs: Rect) returns (r: Rect)
    requires rhs.min.x != 0 && rhs.min.y != 0 && rhs.max.x != 0 && rhs.max.y != 0
    ensures r == Div(self, rhs)
  {
    r := self;
    r := Rect(r.min.Div(rhs.min), r.max.Div(rhs.max));
  }

  /** `/=` with a point. */
  method DivAssignPoint(self: Rect, rhs: IVec2) returns (r: Rect)
    requires rhs.x != 0 && rhs.y != 0
    ensures r == DivPoint(self, rhs)
  {
    r := self;
    r := Rect(r.min.Div(rhs), r.max.Div(rhs));
  }

  /** Negation is an involution. */
  lemma NegInvolution(r: Rect)
    ensures Neg(Neg(r)) == r
  {
  }

  /** Negating an ordered rectangle of positive extent swaps the roles of its corners,
      so the result is empty. */
  lemma NegEmpties(r: Rect)
    requires r.Ordered() && !r.IsEmpty()
    ensures Neg(r).IsEmpty() && !Neg(r).Ordered()
  {
  }

  /** Subtracting a rectangle undoes adding it, and adding is commutative. */
  lemma AddSubInverse(r: Rect, q: Rect)
    ensures Sub(Add(r, q), q) == r
    ensures Add(r, q) == Add(q, r)
  {
  }

  /** Subtracting a point undoes adding it, as written as well as translated. */
  lemma PointShiftInverse(r: Rect, p: IVec2)
    ensures SubPoint(AddPoint(r, p), p) == r
    ensures Translate(Translate(r, p), p.Neg()) == r
  {
  }

  /** Scaling by a point with no zero component and dividing by it again gives back the
      rectangle: the products divide exactly. */
  lemma MulDivInverse(r: Rect, p: IVec2)
    requires p.x != 0 && p.y != 0
    ensures DivPoint(MulPoint(r, p), p) == r
  {
    TDivExact(r.min.x, p.x);
    TDivExact(r.min.y, p.y);
    TDivExact(r.max.x, p.x);
    TDivExact(r.max.y, p.y);
  }

  /** Multiplying by a rectangle with no zero component and dividing by it again gives
      back the rectangle. */
  lemma MulDivRectInverse(r: Rect, q: Rect)
    requires q.min.x != 0 && q.min.y != 0 && q.max.x != 0 && q.max.y != 0
    ensures Div(Mul(r, q), q) == r
  {
    TDivExact(r.min.x, q.min.x);
    TDivExact(r.min.y, q.min.y);
    TDivExact(r.max.x, q.max.x);
    TDivExact(r.max.y, q.max.y);
  }

  /** The rectangle operators agree with the point operators on the rectangle whose two
      corners are the point. */
  lemma PointRectOperators(r: Rect, p: IVec2)
    ensures Mul(r, Rect(p, p)) == MulPoint(r, p)
    ensures p.x != 0 && p.y != 0 ==> Div(r, Rect(p, p)) == DivPoint(r, p)
  {
  }

  /** Truncating division of an exact multiple recovers the factor. */
  lemma TDivExact(a: int, b: int)
    requires b != 0
    ensures TDiv(a * b, b) == a
  {
    var A, B := Abs(a), Abs(b);
    AbsProduct(a, b);
    DivModUnique(A * B, B, A, 0);
  }

  lemma AbsProduct(a: int, b: int)
    ensures Abs(a * b) == Abs(a) * Abs(b)
    ensures (a * b < 0) <==> (a < 0) != (b < 0) && a != 0 && b != 0
  {
    if a < 0 && b < 0 {
      assert a * b == (-a) * (-b);
    } else if a < 0 && b > 0 {
      assert a * b == -((-a) * b);
    } else if a > 0 && b < 0 {
      assert a * b == -(a * (-b));
    }
    if a != 0 && b != 0 {
      MulNonZero(Abs(a), Abs(b));
    }
  }

  lemma MulNonZero(a: nat, b: nat)
    requires a > 0 && b > 0
    ensures a * b > 0
  {
    MulAtLeast(a, b);
  }

  /** The counterexample to `r + p` as written: adding the point `(0, 5)` leaves the
      rectangle where it was, where translating moves it up by five. */
  lemma AddPointIgnoresY()
    ensures var r := Rect(IVec2(0, 0), IVec2(1, 1));
            AddPoint(r, IVec2(0, 5)) == r &&
            Translate(r, IVec2(0, 5)) == Rect(IVec2(0, 5), IVec2(1, 6))
  {
  }

  /** On the point `(k, k)` the operators as written agree with the translation, which
      is why the library's own examples do not tell the two apart. */
  lemma AddPointOnDiagonal(r: Rect, k: int)
    ensures AddPoint(r, IVec2(k, k)) == Translate(r, IVec2(k, k))
    ensures SubPoint(r, IVec2(k, k)) == Translate(r, IVec2(-k, -k))
  {
  }

  /** The example of the library's tests: `[0,0]..[10,10] + [1,1]..[1,1]` is
      `[1,1]..[11,11]`. */
  lemma AddExample()
    ensures Add(FromCorners(IVec2(0, 0), IVec2(10, 10)), FromCorners(IVec2(1, 1), IVec2(1, 1))) ==
            Rect(IVec2(1, 1), IVec2(11, 11))
  {
  }
}
