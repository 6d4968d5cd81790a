/** Machine-integer helpers: the ranges of Rust's `i32`/`u32`, the wrapping casts between
    them, and Rust's signed division and remainder, which round toward zero (Dafny's `/`
    and `%` are Euclidean). */
module Ints {

  const I32_MIN: int := -0x8000_0000
  const I32_MAX: int := 0x7fff_ffff
  const U32_MAX: int := 0xffff_ffff

  type u32 = x: int | 0 <= x <= 0xffff_ffff

  function Abs(a: int): nat { if a < 0 then -a else a }

  /** `u as i32`: reinterprets the 32 bits, so values above `i32::MAX` become negative. */
  function AsI32(u: u32): (r: int)
    ensures I32_MIN <= r <= I32_MAX
    ensures u <= I32_MAX ==> r == u
    ensures u > I32_MAX ==> r == u - 0x1_0000_0000 < 0
  {
    if u <= I32_MAX then u else u - 0x1_0000_0000
  }

  /** `i as u32` for an `i32` value: negative values wrap around. */
  function AsU32(i: int): (r: u32)
    requires I32_MIN <= i <= I32_MAX
    ensures i >= 0 ==> r == i
    ensures i < 0 ==> r == i + 0x1_0000_0000
  {
    if i >= 0 then i else i + 0x1_0000_0000
  }

  /** `i as usize` for an `i32` value on a 64-bit target: negative values wrap around. */
  function AsUsize(i: int): (r: nat)
    requires I32_MIN <= i <= I32_MAX
    ensures i >= 0 ==> r == i
    ensures i < 0 ==> r == i + 0x1_0000_0000_0000_0000
  {
    if i >= 0 then i else i + 0x1_0000_0000_0000_0000
  }

  /** `n as i32` for a `usize` value: keeps the low 32 bits. */
  function UsizeAsI32(n: nat): (r: int)
    ensures I32_MIN <= r <= I32_MAX
    ensures n <= I32_MAX ==> r == n
  {
    if n <= I32_MAX then n else AsI32(n % 0x1_0000_0000)
  }

  /** Casting a `u32` to `i32` and back gives the original value. */
  lemma AsU32AsI32(u: u32)
    ensures AsU32(AsI32(u)) == u
  {
  }

  /** Rust's `a / b` on signed integers: the quotient rounded toward zero. */
  function TDiv(a: int, b: int): int
    requires b != 0
  {
    var q := Abs(a) / Abs(b);
    if (a < 0) == (b < 0) then q else -q
  }

  /** Rust's `a % b` on signed integers: the remainder takes the sign of `a`. */
  function TRem(a: int, b: int): int
    requires b != 0
  {
    a - b * TDiv(a, b)
  }

  /** The defining properties of truncating division: `a == b*q + r`, the remainder is smaller
      than the divisor in magnitude and is zero or has the sign of the dividend. */
  lemma TruncatingDivision(a: int, b: int)
    requires b != 0
    ensures a == b * TDiv(a, b) + TRem(a, b)
    ensures Abs(TRem(a, b)) < Abs(b)
    ensures a >= 0 ==> 0 <= TRem(a, b)
    ensures a < 0 ==> TRem(a, b) <= 0
  {
    var B := Abs(b);
    var q := Abs(a) / B;
    var m := Abs(a) % B;
    assert Abs(a) == B * q + m && 0 <= m < B;
    var t := TDiv(a, b);
    if (a < 0) == (b < 0) {
      assert t == q;
      ProductSign(b, q, B);
      assert b * t == (if b < 0 then -(B * q) else B * q);
    } else {
      assert t == -q;
      ProductSign(b, -q, B);
      assert b * t == (if b < 0 then B * q else -(B * q));
    }
    assert TRem(a, b) == (if a < 0 then -m else m);
  }

  lemma ProductSign(b: int, t: int, B: int)
    requires B == Abs(b)
    ensures b * t == (if b < 0 then -(B * t) else B * t)
  {
  }

  /** When the dividend is not negative and the divisor is positive, truncating and
      Euclidean division agree. */
  lemma TruncatingIsEuclideanOnNaturals(a: int, b: int)
    requires a >= 0 && b > 0
    ensures TDiv(a, b) == a / b && TRem(a, b) == a % b
  {
  }

  /** Uniqueness of Euclidean division: `q*w + r` with `0 <= r < w` has quotient `q` and
      remainder `r`. */
  lemma DivModUnique(i: int, w: int, q: int, r: int)
    requires w > 0 && 0 <= r < w && i == q * w + r
    ensures i / w == q && i % w == r
  {
    var q', r' := i / w, i % w;
    assert q' * w + r' == q * w + r;
    if q' > q {
      MulAtLeast(q' - q, w);
      assert false;
    } else if q' < q {
      MulAtLeast(q - q', w);
      assert false;
    }
  }

  lemma MulAtLeast(k: int, w: int)
    requires k >= 1 && w > 0
    ensures k * w >= w
  {
  }

  lemma MulSucc(k: int, w: int)
    ensures (k + 1) * w == k * w + w
  {
  }

  lemma MulPred(k: int, w: int)
    ensures k * w == (k - 1) * w + w
  {
  }

  lemma PositiveFactor(w: nat, h: nat)
    requires w * h > 0
    ensures w > 0 && h > 0
  {
  }

  lemma MulAdd(a: int, b: int, w: int)
    ensures (a + b) * w == a * w + b * w
  {
  }

  lemma MulMonotone(a: int, b: int, w: nat)
    requires a <= b
    ensures a * w <= b * w
  {
  }

  /** The quotient and remainder of a natural number by a positive one. */
  lemma DivModBounds(i: nat, w: nat)
    requires w > 0
    ensures 0 <= i / w && 0 <= i % w < w && i == (i / w) * w + i % w
  {
  }

  /** A row-major index is below `w * h` exactly when its row `idx / w` is below `h`. */
  lemma IndexBelowCount(idx: nat, w: nat, h: nat)
    requires w > 0
    ensures idx < w * h <==> idx / w < h
  {
    var q, r := idx / w, idx % w;
    assert idx == q * w + r;
    if q < h {
      MulMonotone(q + 1, h, w);
      assert idx < (q + 1) * w;
    } else {
      MulMonotone(h, q, w);
    }
  }
}
