/** The small slice of Java the closet app leans on: nullable references
    and 32-bit `int` arithmetic with two's-complement wrap-around. */
module JavaLang {

  /** A Java reference that may be `null`. */
  datatype Nullable<+T> = Null | NonNull(value: T) {

    /** The value, or `default` when the reference is `null`. */
    function OrElse(default: T): T {
      match this
      case NonNull(v) => v
      case Null => default
    }
  }

  const TwoTo31: int := 0x8000_0000
  const TwoTo32: int := 0x1_0000_0000

  /** The values of a Java `int`. */
  type Int32 = x: int | -TwoTo31 <= x < TwoTo31

  /** The `int` a Java computation produces when the mathematical result is `x`. */
  function Wrap32(x: int): (r: Int32)
    ensures (r - x) % TwoTo32 == 0
    ensures -TwoTo31 <= x < TwoTo31 ==> r == x
  {
    ((x + TwoTo31) % TwoTo32) - TwoTo31
  }

  /** Adding a multiple of 2^32 does not change what wraps to. */
  lemma WrapShift(x: int, k: int)
    ensures Wrap32(x + k * TwoTo32) == Wrap32(x)
  {
    var y := x + TwoTo31;
    var q := y / TwoTo32;
    var r := y % TwoTo32;
    assert y + k * TwoTo32 == (q + k) * TwoTo32 + r;
    assert (y + k * TwoTo32) % TwoTo32 == r by {
      DivModUnique(y + k * TwoTo32, q + k, r);
    }
  }

  /** Euclidean division by 2^32 has only one quotient/remainder pair. */
  lemma DivModUnique(n: int, q: int, r: int)
    requires 0 <= r < TwoTo32
    requires n == q * TwoTo32 + r
    ensures n % TwoTo32 == r
  {
    var q' := n / TwoTo32;
    var r' := n % TwoTo32;
    assert n == q' * TwoTo32 + r';
    assert (q - q') * TwoTo32 == r' - r;
  }

  /** Two mathematical values that wrap to the same `int` differ by a
      multiple of 2^32, so wrapping first and computing later is the same
      as computing first and wrapping once. */
  lemma WrapLinear(a: int, m: int, c: int)
    ensures Wrap32(m * Wrap32(a) + c) == Wrap32(m * a + c)
  {
    var w := Wrap32(a);
    var k := (w - a) / TwoTo32;
    assert w - a == k * TwoTo32;
    assert m * w + c == (m * a + c) + (m * k) * TwoTo32 by {
      assert m * w == m * a + m * (k * TwoTo32);
      assert m * (k * TwoTo32) == (m * k) * TwoTo32;
    }
    WrapShift(m * a + c, m * k);
  }
}
