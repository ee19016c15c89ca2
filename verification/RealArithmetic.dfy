// Arithmetic over exact reals, in steps small enough for the solver, and
// `Math.round(x * scale) / scale`.
module RealArithmetic {

  function Square(x: real): real {
    x * x
  }

  lemma ProductSign(a: real, b: real, product: real)
    requires product == a * b
    ensures (a > 0.0 && b > 0.0) || (a < 0.0 && b < 0.0) ==> product > 0.0
    ensures a == 0.0 || b == 0.0 ==> product == 0.0
  {
  }

  lemma SquareSign(x: real)
    ensures Square(x) >= 0.0
    ensures Square(x) == 0.0 <==> x == 0.0
  {
    ProductSign(x, x, Square(x));
    hide Square;
  }

  lemma TimesZero(a: real, b: real)
    requires b == 0.0
    ensures a * b == 0.0
  {
  }

  lemma SameProduct(x: real, a: real, b: real)
    requires a == b
    ensures x * a == x * b && a * x == x * a
  {
  }

  function RoundTo(x: real, scale: nat): real
    requires scale > 0
  {
    Nearest(x, scale as real) as real / scale as real
  }

  function Nearest(x: real, s: real): int {
    (x * s + 0.5).Floor
  }

  lemma MulMonotone(x: real, y: real, s: real)
    requires x <= y && s >= 0.0
    ensures x * s <= y * s && s * x <= s * y
  {
  }

  lemma DivMonotone(a: real, b: real, s: real)
    requires a <= b && s > 0.0
    ensures a / s <= b / s
  {
  }

  lemma DivUndone(a: real, s: real)
    requires s != 0.0
    ensures a / s * s == a && a * s / s == a && s * (a / s) == a
  {
  }

  lemma RoundMonotone(x: real, y: real, scale: nat)
    requires scale > 0 && x <= y
    ensures RoundTo(x, scale) <= RoundTo(y, scale)
  {
    var s := scale as real;
    MulMonotone(x, y, s);
    assert Nearest(x, s) <= Nearest(y, s);
    hide Nearest;
    DivMonotone(Nearest(x, s) as real, Nearest(y, s) as real, s);
  }

  // Rounding gives a nearest multiple of 1/scale, the upper one of two.
  lemma RoundIsNearest(x: real, scale: nat, rounded: real)
    requires scale > 0 && rounded == RoundTo(x, scale) * scale as real
    ensures -0.5 < rounded - x * scale as real <= 0.5 && rounded.Floor as real == rounded
  {
    var s := scale as real;
    DivUndone(Nearest(x, s) as real, s);
    WholeFloor(rounded, Nearest(x, s));
  }

  lemma WholeFloor(x: real, k: int)
    requires x == k as real
    ensures x.Floor as real == x
  {
  }

  // A value already on the grid stays.
  lemma RoundOfGrid(k: int, scale: nat)
    requires scale > 0
    ensures RoundTo(k as real / scale as real, scale) == k as real / scale as real
  {
    DivUndone(k as real, scale as real);
    NearestOfWhole(k as real / scale as real, scale as real, k);
  }

  lemma NearestOfWhole(x: real, s: real, k: int)
    requires x * s == k as real
    ensures Nearest(x, s) == k
  {
  }
}
