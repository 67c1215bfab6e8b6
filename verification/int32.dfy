/** Arithmetic of the C# `int` type: its range, unchecked wrap-around, and
    division and remainder that truncate toward zero (Dafny's `/` and `%`
    are Euclidean). */
module Int32 {

  const MinValue: int := -0x8000_0000
  const MaxValue: int := 0x7FFF_FFFF
  const Modulus: int := 0x1_0000_0000

  predicate InRange(x: int) {
    MinValue <= x <= MaxValue
  }

  /** The value an unchecked 32-bit operation stores for the exact result `x`. */
  function Wrap(x: int): (r: int)
    ensures InRange(r)
    ensures (r - x) % Modulus == 0
    ensures InRange(x) ==> r == x
  {
    (x - MinValue) % Modulus + MinValue
  }

  function Abs(x: int): nat {
    if x < 0 then -x else x
  }

  /** C# integer division: the quotient truncated toward zero. */
  function Quot(a: int, b: int): (q: int)
    requires b != 0
    ensures a >= 0 && b > 0 ==> q == a / b
  {
    if (a >= 0) == (b > 0) then Abs(a) / Abs(b) else -(Abs(a) / Abs(b))
  }

  /** C# remainder: what is left after the truncated quotient; it takes the
      sign of the dividend and is smaller in magnitude than the divisor. */
  function Rem(a: int, b: int): (r: int)
    requires b != 0
    ensures a >= 0 && b > 0 ==> r == a % b
  {
    if a >= 0 then Abs(a) % Abs(b) else -(Abs(a) % Abs(b))
  }

  /** Truncated quotient and remainder recompose the dividend. */
  lemma QuotRem(a: int, b: int)
    requires b != 0
    ensures Quot(a, b) * b + Rem(a, b) == a
  {
    var q: int := Abs(a) / Abs(b);
    var m: int := Abs(a) % Abs(b);
    var x: int := Abs(b);
    assert Abs(a) == q * x + m;
    if a >= 0 && b < 0 {
      assert Quot(a, b) == -q && b == -x;
      assert (-q) * (-x) == q * x;
    } else if a < 0 && b > 0 {
      assert Quot(a, b) == -q && b == x && a == -(q * x + m);
      assert (-q) * x == -(q * x);
    } else if a < 0 && b < 0 {
      assert Quot(a, b) == q && b == -x && a == -(q * x + m);
      assert q * (-x) == -(q * x);
    }
  }
}
