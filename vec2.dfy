/** The two-component vector types the library is built on (glam's `IVec2`, `UVec2` and
    `BVec2`), with the component-wise operations the rest of the model uses. Coordinates
    are mathematical integers; `i32` overflow is not modelled. */
module Vec2 {
  import opened Ints

  /** A comparison mask, the result of a component-wise comparison. */
  datatype BVec2 = BVec2(x: bool, y: bool) {
    predicate All() { x && y }
    predicate Any() { x || y }
    function And(o: BVec2): BVec2 { BVec2(x && o.x, y && o.y) }
  }

  /** A signed 2-d vector: a grid point, an offset, or a signed extent. */
  datatype IVec2 = IVec2(x: int, y: int) {
    function Add(o: IVec2): IVec2 { IVec2(x + o.x, y + o.y) }
    function Sub(o: IVec2): IVec2 { IVec2(x - o.x, y - o.y) }
    function Neg(): IVec2 { IVec2(-x, -y) }
    function Mul(o: IVec2): IVec2 { IVec2(x * o.x, y * o.y) }
    /** Component-wise truncating division, as `i32` division does. */
    function Div(o: IVec2): IVec2
      requires o.x != 0 && o.y != 0
    {
      IVec2(TDiv(x, o.x), TDiv(y, o.y))
    }
    /** Vector plus a scalar: the scalar is added to both components. */
    function AddScalar(s: int): IVec2 { IVec2(x + s, y + s) }
    function SubScalar(s: int): IVec2 { IVec2(x - s, y - s) }
    function DivScalar(s: int): IVec2
      requires s != 0
    {
      IVec2(TDiv(x, s), TDiv(y, s))
    }
    function CmpGe(o: IVec2): BVec2 { BVec2(x >= o.x, y >= o.y) }
    function CmpLe(o: IVec2): BVec2 { BVec2(x <= o.x, y <= o.y) }
    function CmpLt(o: IVec2): BVec2 { BVec2(x < o.x, y < o.y) }
  }

  const ZERO: IVec2 := IVec2(0, 0)

  /** An unsigned 2-d vector of `u32` components, used as a size. */
  datatype UVec2 = UVec2(x: u32, y: u32)
}
