/** Fixed-width machine words: the 32-bit signed cells (`i32`,
    `Wrapping<i32>`) and the bytes (`u8`) the interpreter works with. */
module Words {

  const TWO_32: int := 0x1_0000_0000
  const I32_MIN: int := -0x8000_0000
  const I32_MAX: int := 0x7FFF_FFFF

  /** A value of Rust's `i32`. */
  type Int32 = x: int | I32_MIN <= x <= I32_MAX

  /** A value of Rust's `u8`. */
  type Byte = x: int | 0 <= x < 256

  /** Two's-complement wrap-around of an arbitrary integer into `i32`, the
      arithmetic of `std::num::Wrapping<i32>`. */
  function Wrap32(x: int): (r: Int32)
    ensures (r - x) % TWO_32 == 0
    ensures I32_MIN <= x <= I32_MAX ==> r == x
  {
    (x - I32_MIN) % TWO_32 + I32_MIN
  }

  /** Wrap32 is the only `i32` congruent to its argument modulo 2^32. */
  lemma Wrap32Unique(x: int, y: Int32)
    requires (y - x) % TWO_32 == 0
    ensures Wrap32(x) == y
  {
    var r := Wrap32(x);
    assert (r - y) % TWO_32 == 0 by {
      ModSub(r, x, y);
    }
    assert -TWO_32 < r - y < TWO_32;
    ZeroModInRange(r - y);
  }

  lemma ModSub(r: int, x: int, y: int)
    requires (r - x) % TWO_32 == 0 && (y - x) % TWO_32 == 0
    ensures (r - y) % TWO_32 == 0
  {
    var a := (r - x) / TWO_32;
    var b := (y - x) / TWO_32;
    assert r - x == a * TWO_32;
    assert y - x == b * TWO_32;
    assert r - y == (a - b) * TWO_32;
  }

  lemma ZeroModInRange(d: int)
    requires -TWO_32 < d < TWO_32 && d % TWO_32 == 0
    ensures d == 0
  {
  }

  /** Wrapping addition is associative in the sense that adding in two steps
      equals adding the sum at once. */
  lemma Wrap32Add(x: int, a: int, b: int)
    ensures Wrap32(Wrap32(x + a) + b) == Wrap32(x + a + b)
  {
    var inner := Wrap32(x + a);
    assert (inner + b - (x + a + b)) % TWO_32 == 0;
    var outer := Wrap32(inner + b);
    ModSub(outer, inner + b, x + a + b);
    Wrap32Unique(x + a + b, outer);
  }

  /** `i32::MAX + 1` wraps to `i32::MIN`, and `i32::MIN - 1` to `i32::MAX`. */
  lemma WrapAtBounds()
    ensures Wrap32(I32_MAX + 1) == I32_MIN < 0
    ensures Wrap32(I32_MIN - 1) == I32_MAX > 0
  {
  }
}
