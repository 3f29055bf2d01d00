/** Arithmetic under names, so that equal operands give equal results by congruence. */
module Numbers {

  function Lesser(a: nat, b: nat): nat {
    if a <= b then a else b
  }

  function Plus(x: real, y: real): real {
    x + y
  }

  function Minus(x: real, y: real): real {
    x - y
  }

  function Multiply(x: real, y: real): real {
    x * y
  }

  function Divide(x: real, y: real): real
    requires y != 0.0
  {
    x / y
  }

  lemma MultiplySymmetric(x: real, y: real)
    ensures Multiply(x, y) == Multiply(y, x)
  {
  }

  lemma MultiplyMonotone(x: real, y: real, factor: real)
    requires x <= y
    ensures factor >= 0.0 ==> Multiply(x, factor) <= Multiply(y, factor)
    ensures factor <= 0.0 ==> Multiply(y, factor) <= Multiply(x, factor)
  {
    assert Multiply(y - x, factor) == Multiply(y, factor) - Multiply(x, factor);
  }

  lemma MultiplySum(x: real, y: real, z: real)
    ensures Multiply(x, y + z) == Multiply(x, y) + Multiply(x, z) && Multiply(x, 0.0) == 0.0
  {
  }
}
