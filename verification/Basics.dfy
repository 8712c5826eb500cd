/** Optional values, and the wrap-around of 32-bit unsigned arithmetic. */
module Basics {

  const TWO_31: int := 0x8000_0000
  const TWO_32: int := 0x1_0000_0000

  datatype Option<T> = None | Some(value: T)

  /** Conversion to an unsigned 32-bit integer. */
  function U32(x: int): (r: int)
    ensures 0 <= r < TWO_32
    ensures 0 <= x < TWO_32 ==> r == x
    ensures TWO_32 <= x < 2 * TWO_32 ==> r == x - TWO_32
    ensures -TWO_32 <= x < 0 ==> r == x + TWO_32
  {
    x % TWO_32
  }

  /** Reducing before an addition is reducing after it. */
  lemma U32Absorbs(x: int, y: int)
    ensures U32(U32(x) + y) == U32(x + y) && U32(x + U32(y)) == U32(x + y) && U32(U32(x) - y) == U32(x - y)
  {
    var a, b := x / TWO_32, y / TWO_32;
    assert x == a * TWO_32 + U32(x) && y == b * TWO_32 + U32(y);
    SameModulo(U32(x) + y, x + y, a);
    SameModulo(x + U32(y), x + y, b);
    SameModulo(U32(x) - y, x - y, a);
  }

  lemma SameModulo(x: int, y: int, k: int)
    requires y == x + k * TWO_32
    ensures U32(x) == U32(y)
  {
  }

  /** Reducing before a multiplication is reducing after it. */
  lemma Scales(x: int, k: int, y: int)
    ensures U32(U32(x) * k + y) == U32(x * k + y)
  {
    var a := x / TWO_32;
    assert x == a * TWO_32 + U32(x);
    calc {
      x * k;
      (a * TWO_32 + U32(x)) * k;
      U32(x) * k + a * k * TWO_32;
    }
    SameModulo(U32(x) * k + y, x * k + y, a * k);
  }
}
