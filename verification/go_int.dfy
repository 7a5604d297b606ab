/** The parts of Go's integer semantics the model depends on: the 64-bit
    width of `int` and the truncating remainder operator `%`. */
module GoInt {

  const TwoTo63: int := 0x8000_0000_0000_0000
  const TwoTo64: int := 0x1_0000_0000_0000_0000

  /** The values of Go's `int` on a 64-bit platform. */
  predicate IsInt(x: int) {
    -TwoTo63 <= x < TwoTo63
  }

  /** Two's complement wrap-around of a mathematical integer into `int`, as
      Go's `+` does on overflow. */
  function Wrap(x: int): (r: int)
    ensures IsInt(r)
    ensures (r - x) % TwoTo64 == 0
    ensures IsInt(x) ==> r == x
  {
    (x + TwoTo63) % TwoTo64 - TwoTo63
  }

  function Abs(x: int): (r: nat) {
    if x < 0 then -x else x
  }

  /** Go's `a % b`: the quotient is truncated toward zero, so the remainder
      takes the sign of the dividend and is smaller than `b` in magnitude. */
  function Rem(a: int, b: int): (r: int)
    requires b != 0
    ensures Abs(r) < Abs(b)
    ensures a >= 0 ==> r >= 0
    ensures a <= 0 ==> r <= 0
    ensures (a - r) % b == 0
  {
    SubtractRem(Abs(a), b);
    if a >= 0 then a % Abs(b) else -((-a) % Abs(b))
  }

  /** Taking away the remainder leaves a multiple of the divisor, of either
      sign: the quotient-remainder identity behind Go's `%`. */
  lemma SubtractRem(x: int, b: int)
    requires b != 0
    ensures (x - x % Abs(b)) % b == 0
    ensures (-(x - x % Abs(b))) % b == 0
  {
    var m := Abs(b);
    var d := x - x % m;
    assert d == m * (x / m);
    MultipleRem(m, x / m);
    DivisibleUpToSign(d, m, d, b);
    DivisibleUpToSign(d, m, -d, b);
  }

  /** Dafny's `%` divides out multiples of `m` regardless of sign. */
  lemma {:induction false} MultipleRem(m: int, k: int)
    requires m != 0
    ensures (m * k) % m == 0
  {
    var q := (m * k) / m;
    var r := (m * k) % m;
    assert m * k == m * q + r;
    assert m * (k - q) == r by {
      assert m * (k - q) == m * k - m * q;
    }
    if k - q != 0 {
      MagnitudeOfProduct(m, k - q);
      assert false;
    }
  }

  lemma {:induction false} MagnitudeOfProduct(m: int, d: int)
    requires m != 0 && d != 0
    ensures Abs(m * d) >= Abs(m)
  {
    if d > 0 {
      if m > 0 { assert m * d >= m * 1; } else { assert m * d <= m * 1; }
    } else {
      if m > 0 { assert m * d <= m * -1; } else { assert m * d >= m * -1; }
    }
  }

  /** Divisibility by `y` depends neither on the sign of `y` nor on the sign
      of the dividend. */
  lemma {:induction false} DivisibleUpToSign(x: int, y: int, x': int, y': int)
    requires y != 0 && Abs(y') == Abs(y)
    requires Abs(x') == Abs(x)
    requires x % y == 0
    ensures x' % y' == 0
  {
    var q := x / y;
    assert x == y * q;
    var k := if (x' == x) == (y' == y) then q else -q;
    assert x' == y' * k by {
      if x' == x && y' != y { assert y' == -y; }
      else if x' != x && y' == y { assert x' == -x; }
      else if x' != x && y' != y { assert x' == -x && y' == -y; }
    }
    MultipleRem(y', k);
  }

  /** Go's truncated remainder and Dafny's Euclidean remainder agree on
      whether it is zero, that is, on divisibility. */
  lemma {:induction false} RemZeroIff(a: int, b: int)
    requires b != 0
    ensures Rem(a, b) == 0 <==> a % b == 0
  {
    var m := Abs(b);
    var a' := Abs(a);
    assert Rem(a, b) == 0 <==> a' % m == 0;
    if a % b == 0 {
      DivisibleUpToSign(a, b, a', m);
    }
    if a' % m == 0 {
      DivisibleUpToSign(a', m, a, b);
    }
  }
}
