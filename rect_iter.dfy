/** `RectPointIter`: the points of a rectangle, produced by stepping an offset `curr`
    from `(0, 0)` along rows of `size = max - min` cells. `Rect::for_each` and
    `Rect::into_iter` drive it. */
module RectIter {
  import opened Ints
  import opened Vec2
  import opened Wrappers
  import opened Rects

  /** The offset after `c`: one to the right, or the start of the next row once `x`
      reaches the row width `size.x`. */
  function Advance(c: IVec2, size: IVec2): (r: IVec2)
    ensures c.x + 1 == size.x ==> r == IVec2(0, c.y + 1)
    ensures c.x + 1 != size.x ==> r == IVec2(c.x + 1, c.y)
  {
    var r := IVec2(c.x + 1, c.y);
    if r.x == size.x then IVec2(0, r.y + 1) else r
  }

  class RectPointIter {
    var curr: IVec2
    var size: IVec2
    var min: IVec2
    var max: IVec2

    /** `new`: the size is `max - min` and the offset starts at `(0, 0)`. */
    constructor (min: IVec2, max: IVec2)
      ensures this.min == min && this.max == max
      ensures size == max.Sub(min) && curr == ZERO
    {
      this.min := min;
      this.max := max;
      size := max.Sub(min);
      curr := ZERO;
    }

    /** `next` as written: `None`, changing nothing, once the offset has reached `max`
        in some component; otherwise `min + curr`, advancing the offset. The test is
        against `max`, a corner, although `curr` is an offset from `min`. */
    method Next() returns (r: Option<IVec2>)
      modifies this
      ensures min == old(min) && max == old(max) && size == old(size)
      ensures old(curr).CmpGe(max).Any() ==> r == None && curr == old(curr)
      ensures !old(curr).CmpGe(max).Any() ==>
                r == Some(min.Add(old(curr))) && curr == Advance(old(curr), size)
    {
      if curr.CmpGe(max).Any() {
        return None;
      }
      var p := curr;
      curr := curr.(x := curr.x + 1);
      if curr.x == size.x {
        curr := curr.(x := 0);
        curr := curr.(y := curr.y + 1);
      }
      r := Some(min.Add(p));
    }

    /** `next` as evidently intended: the offset is tested against `size`, so exactly
        the offsets of the rectangle are visited. */
    method NextWithinSize() returns (r: Option<IVec2>)
      modifies this
      ensures min == old(min) && max == old(max) && size == old(size)
      ensures old(curr).CmpGe(size).Any() ==> r == None && curr == old(curr)
      ensures !old(curr).CmpGe(size).Any() ==>
                r == Some(min.Add(old(curr))) && curr == Advance(old(curr), size)
    {
      if curr.CmpGe(size).Any() {
        return None;
      }
      var p := curr;
      curr := curr.(x := curr.x + 1);
      if curr.x == size.x {
        curr := curr.(x := 0);
        curr := curr.(y := curr.y + 1);
      }
      r := Some(min.Add(p));
    }
  }

  /** `into_iter` (and `From<Rect>`): the iterator over the rectangle's corners. */
  method IntoIter(rect: Rect) returns (it: RectPointIter)
    ensures fresh(it) && it.min == rect.min && it.max == rect.max
    ensures it.size == rect.Size() && it.curr == ZERO
  {
    it := new RectPointIter(rect.min, rect.max);
  }

  /** The row-major walk over `h` rows of `w` cells from `min`: step `i` is
      `min + (i % w, i / w)`. */
  function RowMajor(min: IVec2, w: int, h: int): (r: seq<IVec2>)
    requires w > 0 && h >= 0
    ensures |r| == w * h
    ensures forall i :: 0 <= i < |r| ==> r[i] == min.Add(IVec2(i % w, i / w))
  {
    MulMonotone(0, h, w);
    seq(w * h, i requires 0 <= i < w * h => min.Add(IVec2(i % w, i / w)))
  }

  /** Whether the offsets wrap into further rows: the row width `max.x - min.x` is
      positive and reached before `max.x`. */
  predicate Wraps(min: IVec2, max: IVec2)
  {
    0 < max.x - min.x <= max.x
  }

  /** The width of each row the iterator as written visits. */
  function RowWidth(min: IVec2, max: IVec2): int
  {
    if Wraps(min, max) then max.x - min.x else max.x
  }

  /** The number of rows the iterator as written visits. */
  function RowCount(min: IVec2, max: IVec2): int
  {
    if Wraps(min, max) then max.y else 1
  }

  /** Everything the iterator as written yields, in order. With no positive component
      in `max` nothing; when the rows wrap, `max.y` rows of `max.x - min.x` points;
      otherwise the single row of `max.x` points that ends when the offset reaches
      `max.x`. */
  function Yields(min: IVec2, max: IVec2): (r: seq<IVec2>)
    ensures forall i :: 0 <= i < |r| ==> min.x <= r[i].x && min.y <= r[i].y
  {
    if max.x <= 0 || max.y <= 0 then []
    else RowMajor(min, RowWidth(min, max), RowCount(min, max))
  }

  /** Everything the corrected iterator yields: the rectangle's rows, row by row. */
  function YieldsWithinSize(min: IVec2, max: IVec2): (r: seq<IVec2>)
    ensures forall i :: 0 <= i < |r| ==> min.x <= r[i].x < max.x && min.y <= r[i].y < max.y
  {
    if max.x - min.x <= 0 || max.y - min.y <= 0 then []
    else
      var r := RowMajor(min, max.x - min.x, max.y - min.y);
      assert forall i :: 0 <= i < |r| ==> min.x <= r[i].x < max.x && min.y <= r[i].y < max.y by {
        forall i | 0 <= i < |r|
          ensures min.x <= r[i].x < max.x && min.y <= r[i].y < max.y
        {
          RowMajorPoints(min, max.x - min.x, max.y - min.y, r[i]);
        }
      }
      r
  }

  /** `for_each` as written: the points the iterator over the rectangle hands to the
      callback, in order, which are those of `Yields`. It always ends. */
  method ForEach(rect: Rect) returns (visited: seq<IVec2>)
    ensures visited == Yields(rect.min, rect.max)
  {
    var it := IntoIter(rect);
    var min, max := rect.min, rect.max;
    var n := |Yields(min, max)|;
    visited := [];
    StartState(min, max);
    while true
      invariant it.min == min && it.max == max && it.size == max.Sub(min)
      invariant |visited| <= n
      invariant visited == Yields(min, max)[..|visited|]
      invariant |visited| < n ==> it.curr == Offset(min, max, |visited|)
      invariant it.curr.CmpGe(max).Any() <==> |visited| == n
      decreases n - |visited|
    {
      var p := it.Next();
      if p.None? {
        break;
      }
      StepState(min, max, |visited|);
      visited := visited + [p.value];
    }
  }

  /** The offset of step `k` of the walk as written. */
  function Offset(min: IVec2, max: IVec2, k: nat): IVec2
    requires max.x > 0 && max.y > 0
  {
    var w := RowWidth(min, max);
    IVec2(k % w, k / w)
  }

  /** Before the first step the offset is `(0, 0)`, which is past `max` exactly when
      nothing is to be yielded. */
  lemma StartState(min: IVec2, max: IVec2)
    ensures ZERO.CmpGe(max).Any() <==> |Yields(min, max)| == 0
    ensures |Yields(min, max)| > 0 ==> max.x > 0 && max.y > 0 && Offset(min, max, 0) == ZERO
  {
    if max.x > 0 && max.y > 0 {
      var w, h := RowWidth(min, max), RowCount(min, max);
      PositiveProduct(w, h);
    }
  }

  lemma PositiveProduct(w: int, h: int)
    requires w > 0 && h > 0
    ensures w * h > 0
  {
    MulAtLeast(h, w);
  }

  /** One step of the walk as written: from the offset of step `k` the iterator yields
      `Yields[k]` and moves to the offset of step `k + 1`, which is past `max` exactly
      after the last step. */
  lemma StepState(min: IVec2, max: IVec2, k: nat)
    requires k < |Yields(min, max)|
    ensures max.x > 0 && max.y > 0
    ensures min.Add(Offset(min, max, k)) == Yields(min, max)[k]
    ensures var c := Advance(Offset(min, max, k), max.Sub(min));
            (c.CmpGe(max).Any() <==> k + 1 == |Yields(min, max)|) &&
            (k + 1 < |Yields(min, max)| ==> c == Offset(min, max, k + 1))
  {
    var w, h := RowWidth(min, max), RowCount(min, max);
    DivModBounds(k, w);
    RowMajorSucc(k, w);
    if Wraps(min, max) {
      IndexBelowCount(k + 1, w, h);
    } else {
      assert h == 1 && k < w;
      DivModUnique(k, w, 0, k);
      if k + 1 < w {
        DivModUnique(k + 1, w, 0, k + 1);
      }
    }
  }

  /** The position after `k` in a row-major walk of width `w`. */
  lemma RowMajorSucc(k: nat, w: int)
    requires w > 0
    ensures k % w + 1 == w ==> (k + 1) % w == 0 && (k + 1) / w == k / w + 1
    ensures k % w + 1 != w ==> (k + 1) % w == k % w + 1 && (k + 1) / w == k / w
  {
    DivModBounds(k, w);
    if k % w + 1 == w {
      DivModUnique(k + 1, w, k / w + 1, 0);
    } else {
      DivModUnique(k + 1, w, k / w, k % w + 1);
    }
  }

  /** `for_each` as evidently intended, driving the corrected `next`: the points of the
      rectangle row by row. */
  method ForEachWithinSize(rect: Rect) returns (visited: seq<IVec2>)
    ensures visited == YieldsWithinSize(rect.min, rect.max)
  {
    var it := IntoIter(rect);
    var min, max := rect.min, rect.max;
    var n := |YieldsWithinSize(min, max)|;
    visited := [];
    StartStateWithinSize(min, max);
    while true
      invariant it.min == min && it.max == max && it.size == max.Sub(min)
      invariant |visited| <= n
      invariant visited == YieldsWithinSize(min, max)[..|visited|]
      invariant |visited| < n ==> it.curr == IVec2(|visited| % it.size.x, |visited| / it.size.x)
      invariant it.curr.CmpGe(it.size).Any() <==> |visited| == n
      decreases n - |visited|
    {
      var p := it.NextWithinSize();
      if p.None? {
        break;
      }
      StepStateWithinSize(min, max, |visited|);
      visited := visited + [p.value];
    }
  }

  lemma StartStateWithinSize(min: IVec2, max: IVec2)
    ensures ZERO.CmpGe(max.Sub(min)).Any() <==> |YieldsWithinSize(min, max)| == 0
    ensures |YieldsWithinSize(min, max)| > 0 ==> max.x - min.x > 0
  {
    if max.x - min.x > 0 && max.y - min.y > 0 {
      PositiveProduct(max.x - min.x, max.y - min.y);
    }
  }

  lemma StepStateWithinSize(min: IVec2, max: IVec2, k: nat)
    requires k < |YieldsWithinSize(min, max)|
    ensures max.x - min.x > 0 && max.y - min.y > 0
    ensures var w := max.x - min.x;
            min.Add(IVec2(k % w, k / w)) == YieldsWithinSize(min, max)[k] &&
            var c := Advance(IVec2(k % w, k / w), max.Sub(min));
            (c.CmpGe(max.Sub(min)).Any() <==> k + 1 == |YieldsWithinSize(min, max)|) &&
            (k + 1 < |YieldsWithinSize(min, max)| ==> c == IVec2((k + 1) % w, (k + 1) / w))
  {
    var w, h := max.x - min.x, max.y - min.y;
    DivModBounds(k, w);
    RowMajorSucc(k, w);
    IndexBelowCount(k + 1, w, h);
  }

  /** A row-major walk visits exactly the points of its block. */
  lemma RowMajorPoints(min: IVec2, w: int, h: int, p: IVec2)
    requires w > 0 && h >= 0
    ensures p in RowMajor(min, w, h) <==> min.x <= p.x < min.x + w && min.y <= p.y < min.y + h
  {
    var r := RowMajor(min, w, h);
    if p in r {
      var i :| 0 <= i < |r| && r[i] == p;
      DivModBounds(i, w);
      IndexBelowCount(i, w, h);
    }
    if min.x <= p.x < min.x + w && min.y <= p.y < min.y + h {
      var i := (p.y - min.y) * w + (p.x - min.x);
      DivModUnique(i, w, p.y - min.y, p.x - min.x);
      IndexBelowCount(i, w, h);
      assert r[i] == p;
    }
  }

  /** The corrected iterator visits exactly `point_set`: the half-open rectangle. */
  lemma WithinSizeIsPointSet(rect: Rect, p: IVec2)
    ensures p in YieldsWithinSize(rect.min, rect.max) <==>
              rect.min.x <= p.x < rect.max.x && rect.min.y <= p.y < rect.max.y
  {
    var w, h := rect.max.x - rect.min.x, rect.max.y - rect.min.y;
    if w > 0 && h > 0 {
      RowMajorPoints(rect.min, w, h, p);
    }
  }

  /** From the origin the iterator as written and the corrected one agree: both yield
      the `max.x * max.y` points of `[0, max.x) x [0, max.y)` in row-major order. */
  lemma FromOriginAgrees(max: IVec2)
    requires max.x > 0 && max.y > 0
    ensures Yields(ZERO, max) == YieldsWithinSize(ZERO, max)
    ensures |Yields(ZERO, max)| == max.x * max.y
    ensures forall i :: 0 <= i < |Yields(ZERO, max)| ==> Yields(ZERO, max)[i] == IVec2(i % max.x, i / max.x)
  {
  }

  /** The counterexample to `next` as written: from `min = (1, 1)` to `max = (2, 2)` it
      yields `(1, 1)` and then `(1, 2)`, which lies outside the half-open rectangle, whose
      only point is `(1, 1)`. */
  lemma YieldsPastRect()
    ensures Yields(IVec2(1, 1), IVec2(2, 2)) == [IVec2(1, 1), IVec2(1, 2)]
    ensures YieldsWithinSize(IVec2(1, 1), IVec2(2, 2)) == [IVec2(1, 1)]
  {
    var r := RowMajor(IVec2(1, 1), 1, 2);
    assert r[0] == IVec2(1, 1) && r[1] == IVec2(1 % 1 + 1, 1 / 1 + 1);
    var s := RowMajor(IVec2(1, 1), 1, 1);
    assert s[0] == IVec2(1, 1);
  }

  /** The library's `for_each` example: over `new([0,0],[1,1])` the callback sees only
      `(0, 0)`. */
  method ForEachExample() returns (visited: seq<IVec2>)
    ensures visited == [IVec2(0, 0)]
  {
    var rect := New(IVec2(0, 0), IVec2(1, 1));
    assert rect == Rect(ZERO, IVec2(1, 1));
    visited := ForEach(rect);
    UnitYields();
  }

  lemma UnitYields()
    ensures Yields(ZERO, IVec2(1, 1)) == [ZERO]
  {
    assert Wraps(ZERO, IVec2(1, 1));
    assert Yields(ZERO, IVec2(1, 1)) == RowMajor(ZERO, 1, 1);
    RowMajorSingle(ZERO);
  }

  lemma RowMajorSingle(min: IVec2)
    ensures RowMajor(min, 1, 1) == [min]
  {
    var r := RowMajor(min, 1, 1);
    assert r[0] == min.Add(IVec2(0 % 1, 0 / 1));
  }
}
