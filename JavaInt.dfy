/** Java `int` arithmetic over Dafny's unbounded integers. */
module JavaInt {
  const INT_MIN: int := -0x8000_0000
  const INT_MAX: int := 0x7fff_ffff
  const TWO32: int := 0x1_0000_0000

  predicate IsInt32(x: int) { INT_MIN <= x <= INT_MAX }

  /** The value a Java `int` holds after an operation whose exact result is `x` (two's-complement wrap). */
  function Wrap32(x: int): (r: int)
    ensures IsInt32(r)
    ensures IsInt32(x) ==> r == x
  {
    (x - INT_MIN) % TWO32 + INT_MIN
  }

  /** Two exact results that differ by a multiple of 2^32 wrap to the same Java `int`. */
  lemma WrapCongruent(x: int, y: int, k: int)
    requires x == y + k * TWO32
    ensures Wrap32(x) == Wrap32(y)
  {
    var a := y - INT_MIN;
    assert x - INT_MIN == a + k * TWO32;
    var q := a / TWO32;
    var r := a % TWO32;
    assert a == q * TWO32 + r && 0 <= r < TWO32;
    assert x - INT_MIN == (q + k) * TWO32 + r;
    assert (x - INT_MIN) % TWO32 == r;
  }

  /** Wrap32 differs from its argument by a multiple of 2^32. */
  lemma WrapOffset(x: int) returns (k: int)
    ensures Wrap32(x) == x + k * TWO32
  {
    k := -((x - INT_MIN) / TWO32);
  }

  /** Java's `a + b` on two ints, wrapped after each step, equals wrapping the exact sum once. */
  lemma WrapAdd(a: int, b: int)
    ensures Wrap32(Wrap32(a) + Wrap32(b)) == Wrap32(a + b)
  {
    var ka := WrapOffset(a);
    var kb := WrapOffset(b);
    WrapCongruent(Wrap32(a) + Wrap32(b), a + b, ka + kb);
  }

  /** Java's `a * b` where `a` was itself wrapped: the same int as wrapping the exact product once. */
  lemma WrapMul(a: int, b: int)
    ensures Wrap32(Wrap32(a) * b) == Wrap32(a * b)
  {
    var k := WrapOffset(a);
    assert Wrap32(a) * b == a * b + (k * b) * TWO32 by {
      assert Wrap32(a) * b == (a + k * TWO32) * b;
    }
    WrapCongruent(Wrap32(a) * b, a * b, k * b);
  }

  /** Java's integer division, which truncates toward zero (Dafny's `/` is Euclidean). */
  function JDiv(a: int, b: int): (q: int)
    requires b > 0
    ensures a >= 0 ==> q == a / b
  {
    if a >= 0 then a / b else -((-a) / b)
  }

  /** JDiv rounds toward zero: down for a non-negative dividend, up for a negative one. */
  lemma JDivTruncates(a: int, b: int)
    requires b > 0
    ensures a >= 0 ==> JDiv(a, b) * b <= a < (JDiv(a, b) + 1) * b
    ensures a < 0 ==> (JDiv(a, b) - 1) * b < a <= JDiv(a, b) * b
  {
  }

  function Max(a: int, b: int): (r: int)
    ensures r >= a && r >= b && (r == a || r == b)
  {
    if a >= b then a else b
  }

  function Min(a: int, b: int): (r: int)
    ensures r <= a && r <= b && (r == a || r == b)
  {
    if a <= b then a else b
  }

  // ---------------------------------------------------------------- arithmetic helpers

  lemma MulLe(p: int, a: int, b: int)
    requires p >= 0 && a <= b
    ensures p * a <= p * b
  {
  }

  /** Euclidean division is determined by the quotient-remainder decomposition. */
  lemma DivModUnique(a: int, b: int, q: int, r: int)
    requires b > 0 && a == q * b + r && 0 <= r < b
    ensures a / b == q && a % b == r
  {
    var q0 := a / b;
    var r0 := a % b;
    assert a == q0 * b + r0 && 0 <= r0 < b;
    if q0 < q {
      MulLe(b, q0 + 1, q);
      assert false;
    }
    if q0 > q {
      MulLe(b, q + 1, q0);
      assert false;
    }
  }
}
