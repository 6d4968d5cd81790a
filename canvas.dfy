/** `Canvas`: a text canvas for debugging, a `String` of `width * height` ASCII
    characters laid out row by row, in which single cells are overwritten. */
module Canvases {
  import opened Ints
  import opened Vec2
  import Size2d
  import GridPoint

  /** `glyph as u8`: the low byte of the character's code point. The byte becomes the
      canvas character only when it is ASCII; `from_utf8` rejects any other single byte. */
  function LowByte(glyph: char): (b: nat)
    ensures b < 256
    ensures glyph as int < 256 ==> b == glyph as int
  {
    (glyph as int) % 256
  }

  /** The character `put` stores for `glyph`, whose low byte is ASCII: the glyph itself when
      it is ASCII, otherwise the ASCII character of its low byte. */
  function Stored(glyph: char): (c: char)
    requires LowByte(glyph) < 128
    ensures c as int < 128 && c as int == LowByte(glyph)
    ensures glyph as int < 128 ==> c == glyph
  {
    LowByte(glyph) as char
  }

  class Canvas {
    var size: UVec2
    var text: seq<char>

    /** The text holds one ASCII character per cell. */
    ghost predicate Valid()
      reads this
    {
      Size2d.CountFits(size) &&
      |text| == size.x * size.y &&
      forall i :: 0 <= i < |text| ==> text[i] as int < 128
    }

    /** `new`: `count` spaces, the size kept as `as_uvec2` gives it back. `count` multiplies
        in `u32`, so a size whose product overflows is refused. */
    constructor (s: UVec2)
      requires Size2d.CountFits(s)
      ensures Valid()
      ensures size == s
      ensures |text| == Size2d.Count(s) && forall i :: 0 <= i < |text| ==> text[i] == ' '
    {
      size := Size2d.AsUVec2(s);
      text := seq(Size2d.Count(s), _ => ' ');
    }

    /** `to_index`: `y as usize * width + x as usize`. A negative coordinate wraps to a
        value of at least `2^64 - 2^31`, so the index lands far past the end of the text
        (for a negative `y`, unless the width is zero). */
    function ToIndex(p: IVec2): (r: nat)
      requires I32_MIN <= p.x <= I32_MAX && I32_MIN <= p.y <= I32_MAX
      reads this
      ensures p.x >= 0 && p.y >= 0 ==> r == GridPoint.AsIndex(p, size.x)
      ensures p.x < 0 || (p.y < 0 && size.x > 0) ==> r >= 0x1_0000_0000_0000_0000 + I32_MIN
    {
      var ux, uy := AsUsize(p.x), AsUsize(p.y);
      WrappedIndex(ux, uy, size.x);
      uy * size.x + ux
    }

    /** `put`: the one character at `to_index(pos)` is replaced by the stored form of
        `glyph`. `replace_range` panics past the end and `from_utf8` on a byte that is not
        ASCII, so both are required; everything else is unchanged. */
    method Put(p: IVec2, glyph: char)
      requires Valid()
      requires I32_MIN <= p.x <= I32_MAX && I32_MIN <= p.y <= I32_MAX
      requires ToIndex(p) < |text|
      requires LowByte(glyph) < 128
      modifies this
      ensures Valid()
      ensures size == old(size)
      ensures text == old(text)[old(ToIndex(p)) := Stored(glyph)]
    {
      var i := ToIndex(p);
      text := text[..i] + [Stored(glyph)] + text[i + 1..];
    }
  }

  /** The `usize` arithmetic of `to_index`: an operand wrapped from a negative `i32` makes
      the sum huge, unless it is the row multiplied by a zero width. */
  lemma WrappedIndex(ux: nat, uy: nat, w: nat)
    ensures 0 <= uy * w
    ensures ux >= 0x1_0000_0000_0000_0000 + I32_MIN || (uy >= 0x1_0000_0000_0000_0000 + I32_MIN && w > 0) ==>
              uy * w + ux >= 0x1_0000_0000_0000_0000 + I32_MIN
  {
    MulMonotone(0, uy, w);
    if uy > 0 && w > 0 {
      MulAtLeast(uy, w);
    }
  }

  /** Exactly the points with both coordinates non-negative and a row-major offset inside the
      text are accepted by `put`: every valid point, and also an `x` past the width, which
      spills into the next row. */
  lemma ToIndexInRange(c: Canvas, p: IVec2)
    requires c.Valid()
    requires I32_MIN <= p.x <= I32_MAX && I32_MIN <= p.y <= I32_MAX
    ensures c.ToIndex(p) < |c.text| <==>
              p.x >= 0 && p.y >= 0 && GridPoint.AsIndex(p, c.size.x) < c.size.x * c.size.y
    ensures GridPoint.IsValid(p, c.size) ==> c.ToIndex(p) < |c.text|
  {
    if GridPoint.IsValid(p, c.size) {
      GridPoint.AsIndexInRange(p, c.size);
    }
  }

  /** Two valid points address two different characters, so a `put` at one leaves the other
      alone. */
  lemma ToIndexInjective(c: Canvas, p: IVec2, q: IVec2)
    requires GridPoint.IsValid(p, c.size) && GridPoint.IsValid(q, c.size)
    requires p != q
    ensures c.ToIndex(p) != c.ToIndex(q)
  {
    GridPoint.AsIndexInjective(p, q, c.size);
  }

  /** The library's `print_test`: on a 10 by 5 canvas, stars put on the diagonal from
      `(1, 1)` to `(4, 4)` land at offsets 11, 22, 33 and 44, and the rest stays blank. */
  method PrintTestExample() returns (c: Canvas)
    ensures c.Valid() && c.size == UVec2(10, 5)
    ensures forall i :: 0 <= i < |c.text| ==>
              c.text[i] == if i in {11, 22, 33, 44} then '*' else ' '
  {
    c := new Canvas(UVec2(10, 5));
    c.Put(IVec2(1, 1), '*');
    c.Put(IVec2(2, 2), '*');
    c.Put(IVec2(3, 3), '*');
    c.Put(IVec2(4, 4), '*');
  }
}
