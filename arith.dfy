/** Exact integer number theory shared by the solvers: congruence, divisibility,
    Bezout coefficients, coprimality, powers and products. Everything here is a
    specification; the executable models live in the other modules. */
module Arith {

  function Abs(x: int): (r: nat)
    ensures r == x || r == -x
  {
    if x < 0 then -x else x
  }

  /** `x` and `y` leave the same remainder modulo the positive modulus `m`. */
  predicate Cong(x: int, y: int, m: int)
  {
    m > 0 && (x - y) % m == 0
  }

  /** `d` is a positive divisor of `n` (every `d > 0` divides `0`). */
  predicate Divides(d: int, n: int)
  {
    d > 0 && n % d == 0
  }

  /** No positive divisor other than 1 is shared by `a` and `b`. */
  ghost predicate Coprime(a: int, b: int)
  {
    forall d :: Divides(d, a) && Divides(d, b) ==> d == 1
  }

  ghost predicate PairwiseCoprime(ms: seq<int>)
  {
    forall i, j :: 0 <= i < |ms| && 0 <= j < |ms| && i != j ==> Coprime(ms[i], ms[j])
  }

  function Pow(b: int, e: nat): int
  {
    if e == 0 then 1 else b * Pow(b, e - 1)
  }

  /** Product of a sequence, `1` for the empty one (the `reduce` with seed `1`). */
  function Prod(s: seq<int>): int
  {
    if s == [] then 1 else s[0] * Prod(s[1..])
  }

  function RemoveAt(s: seq<int>, i: nat): (r: seq<int>)
    requires i < |s|
    ensures |r| == |s| - 1
    ensures forall j :: 0 <= j < i ==> r[j] == s[j]
    ensures forall j :: i <= j < |r| ==> r[j] == s[j + 1]
  {
    s[..i] + s[i + 1..]
  }

  // ---------------------------------------------------------------------------
  // Euclidean division

  lemma MulAtLeast(k: int, m: int)
    requires k >= 1 && m >= 0
    ensures k * m >= m
  {
    var j := k - 1;
    assert k * m == j * m + m;
  }

  lemma MulMonotone(a: int, b: int, c: int, d: int)
    requires 0 <= a <= c && 0 <= b <= d
    ensures a * b <= c * d
  {
    if c > a {
      MulAtLeast(1, (c - a) * b);
    }
    assert c * d - a * b == c * (d - b) + (c - a) * b;
    assert c * (d - b) >= 0 && (c - a) * b >= 0;
  }

  /** Quotient and remainder are determined by `x == q * m + r, 0 <= r < m`. */
  lemma ModUnique(x: int, q: int, r: int, m: int)
    requires m > 0 && 0 <= r < m && x == q * m + r
    ensures x % m == r && x / m == q
  {
    var q', r' := x / m, x % m;
    assert x == q' * m + r';
    if q > q' {
      MulAtLeast(q - q', m);
      assert false;
    } else if q < q' {
      MulAtLeast(q' - q, m);
      assert false;
    }
  }

  lemma MultipleMod(k: int, m: int)
    requires m > 0
    ensures (k * m) % m == 0 && (k * m) / m == k
  {
    ModUnique(k * m, k, 0, m);
  }

  lemma CongIsMultiple(x: int, y: int, m: int)
    requires Cong(x, y, m)
    ensures x - y == (x - y) / m * m
  {
  }

  lemma MultipleIsCong(x: int, y: int, k: int, m: int)
    requires m > 0 && x - y == k * m
    ensures Cong(x, y, m)
  {
    MultipleMod(k, m);
  }

  /** Congruent numbers have equal Euclidean remainders, and conversely. */
  lemma CongIffSameMod(x: int, y: int, m: int)
    requires m > 0
    ensures Cong(x, y, m) <==> x % m == y % m
  {
    var qx, qy := x / m, y / m;
    assert x == qx * m + x % m && y == qy * m + y % m;
    if Cong(x, y, m) {
      var k := (x - y) / m;
      CongIsMultiple(x, y, m);
      assert x == (qy + k) * m + y % m;
      ModUnique(x, qy + k, y % m, m);
    }
    if x % m == y % m {
      assert x - y == (qx - qy) * m;
      MultipleIsCong(x, y, qx - qy, m);
    }
  }

  lemma CongRefl(x: int, m: int)
    requires m > 0
    ensures Cong(x, x, m)
  {
  }

  lemma CongSym(x: int, y: int, m: int)
    requires Cong(x, y, m)
    ensures Cong(y, x, m)
  {
    CongIffSameMod(x, y, m);
    CongIffSameMod(y, x, m);
  }

  lemma CongTrans(x: int, y: int, z: int, m: int)
    requires Cong(x, y, m) && Cong(y, z, m)
    ensures Cong(x, z, m)
  {
    CongIffSameMod(x, y, m);
    CongIffSameMod(y, z, m);
    CongIffSameMod(x, z, m);
  }

  lemma CongAdd(x: int, x': int, y: int, y': int, m: int)
    requires Cong(x, x', m) && Cong(y, y', m)
    ensures Cong(x + y, x' + y', m)
  {
    var kx, ky := (x - x') / m, (y - y') / m;
    CongIsMultiple(x, x', m);
    CongIsMultiple(y, y', m);
    assert (x + y) - (x' + y') == (kx + ky) * m;
    MultipleIsCong(x + y, x' + y', kx + ky, m);
  }

  lemma CongMul(x: int, x': int, y: int, y': int, m: int)
    requires Cong(x, x', m) && Cong(y, y', m)
    ensures Cong(x * y, x' * y', m)
  {
    var kx, ky := (x - x') / m, (y - y') / m;
    CongIsMultiple(x, x', m);
    CongIsMultiple(y, y', m);
    calc {
      x * y - x' * y';
      x * (y - y') + y' * (x - x');
      x * (ky * m) + y' * (kx * m);
      (x * ky + y' * kx) * m;
    }
    MultipleIsCong(x * y, x' * y', x * ky + y' * kx, m);
  }

  /** A multiple of `m` vanishes modulo `m`. */
  lemma CongMultipleZero(x: int, k: int, m: int)
    requires Cong(x, 0, m)
    ensures Cong(k * x, 0, m)
  {
    CongRefl(k, m);
    CongMul(k, k, x, 0, m);
  }

  /** A congruence modulo `m` holds modulo every divisor of `m`. */
  lemma CongDivisor(x: int, y: int, m: int, d: int)
    requires Cong(x, y, m) && Divides(d, m)
    ensures Cong(x, y, d)
  {
    var k, j := (x - y) / m, m / d;
    CongIsMultiple(x, y, m);
    assert m == j * d;
    assert x - y == (k * j) * d;
    MultipleIsCong(x, y, k * j, d);
  }

  lemma PowCong(x: int, y: int, e: nat, m: int)
    requires Cong(x, y, m)
    ensures Cong(Pow(x, e), Pow(y, e), m)
  {
    if e == 0 {
      CongRefl(1, m);
    } else {
      PowCong(x, y, e - 1, m);
      CongMul(x, y, Pow(x, e - 1), Pow(y, e - 1), m);
    }
  }

  /** Squaring the base halves the exponent: the identity behind square-and-multiply. */
  lemma {:induction false} PowSquare(x: int, k: nat)
    ensures Pow(x, 2 * k) == Pow(x * x, k)
    ensures Pow(x, 2 * k + 1) == x * Pow(x * x, k)
  {
    if k > 0 {
      PowSquare(x, k - 1);
      calc {
        Pow(x, 2 * k);
        x * (x * Pow(x, 2 * (k - 1)));
        (x * x) * Pow(x * x, k - 1);
        Pow(x * x, k);
      }
    }
  }

  // ---------------------------------------------------------------------------
  // Divisibility, Bezout and coprimality

  lemma DividesLe(d: int, n: int)
    requires Divides(d, n) && n > 0
    ensures d <= n
  {
    var k := n / d;
    assert n == k * d;
    if k <= 0 {
      MulAtLeast(1 - k, d);
      assert false;
    }
    MulAtLeast(k, d);
  }

  lemma DividesAntisym(a: int, b: int)
    requires Divides(a, b) && Divides(b, a) && a > 0 && b > 0
    ensures a == b
  {
    DividesLe(a, b);
    DividesLe(b, a);
  }

  lemma DividesMultiple(d: int, k: int)
    requires d > 0
    ensures Divides(d, k * d)
  {
    MultipleMod(k, d);
  }

  lemma DividesTrans(a: int, b: int, c: int)
    requires Divides(a, b) && Divides(b, c)
    ensures Divides(a, c)
  {
    var j, k := b / a, c / b;
    assert b == j * a && c == k * b;
    assert c == (k * j) * a;
    MultipleMod(k * j, a);
  }

  /** A common divisor of `a` and `b` divides every integer combination of them. */
  lemma DividesLinear(d: int, a: int, b: int, x: int, y: int)
    requires Divides(d, a) && Divides(d, b)
    ensures Divides(d, a * x + b * y)
  {
    var ka, kb := a / d, b / d;
    assert a == ka * d && b == kb * d;
    assert a * x + b * y == (ka * x + kb * y) * d;
    MultipleMod(ka * x + kb * y, d);
  }

  /** Euclid's step keeps the set of common divisors: subtracting any multiple of `b`
      from `a` changes none of them. */
  lemma CommonDivisorsStep(a: int, b: int, q: int, d: int)
    ensures Divides(d, a) && Divides(d, b) <==> Divides(d, b) && Divides(d, a - q * b)
  {
    var r := a - q * b;
    if Divides(d, a) && Divides(d, b) {
      DividesLinear(d, a, b, 1, -q);
      assert a * 1 + b * (-q) == r;
    }
    if Divides(d, b) && Divides(d, r) {
      DividesLinear(d, r, b, 1, q);
      assert r * 1 + b * q == a;
    }
  }

  /** Bezout: the greatest common divisor `g` of two naturals is an integer
      combination of them, divides both, and is divided by every common divisor. */
  lemma {:induction false} Bezout(a: nat, b: nat) returns (g: nat, x: int, y: int)
    ensures g == a * x + b * y
    ensures g == 0 <==> a == 0 && b == 0
    ensures g > 0 ==> Divides(g, a) && Divides(g, b)
    ensures forall d :: Divides(d, a) && Divides(d, b) ==> Divides(d, g)
    decreases b
  {
    if b == 0 {
      g, x, y := a, 1, 0;
      if a > 0 {
        MultipleMod(1, a);
        MultipleMod(0, a);
      }
    } else {
      var r := a % b;
      var g', x', y' := Bezout(b, r);
      assert r == a - a / b * b;
      g, x, y := g', y', x' - a / b * y';
      calc {
        a * x + b * y;
        a * y' + b * x' - b * (a / b) * y';
        b * x' + (a - a / b * b) * y';
        g;
      }
      forall d | Divides(d, a) && Divides(d, b) ensures Divides(d, g) {
        CommonDivisorsStep(a, b, a / b, d);
      }
      if g > 0 {
        CommonDivisorsStep(a, b, a / b, g);
      }
    }
  }

  /** For coprime naturals, not both zero, `1` is an integer combination of them. */
  lemma CoprimeBezout(a: nat, b: nat) returns (x: int, y: int)
    requires Coprime(a, b) && (a > 0 || b > 0)
    ensures a * x + b * y == 1
  {
    var g;
    g, x, y := Bezout(a, b);
  }

  lemma OneOnlyDivisorOfOne(d: int)
    requires Divides(d, 1)
    ensures d == 1
  {
    DividesLe(d, 1);
  }

  lemma CoprimeOne(m: int)
    ensures Coprime(1, m)
  {
    forall d | Divides(d, 1) && Divides(d, m) ensures d == 1 {
      OneOnlyDivisorOfOne(d);
    }
  }

  /** A product of factors each coprime to `m` is coprime to `m`. */
  lemma CoprimeMul(a: nat, b: nat, m: nat)
    requires m > 0 && Coprime(a, m) && Coprime(b, m)
    ensures Coprime(a * b, m)
  {
    var x, y := CoprimeBezout(a, m);
    var x', y' := CoprimeBezout(b, m);
    calc {
      (a * b) * (x * x') + m * (y + y' - m * y * y');
      (a * x) * (b * x') + m * y + m * y' - (m * y) * (m * y');
      (1 - m * y) * (1 - m * y') + m * y + m * y' - (m * y) * (m * y');
      1;
    }
    forall d | Divides(d, a * b) && Divides(d, m) ensures d == 1 {
      DividesLinear(d, a * b, m, x * x', y + y' - m * y * y');
      OneOnlyDivisorOfOne(d);
    }
  }

  // ---------------------------------------------------------------------------
  // Products of moduli

  lemma {:induction false} ProdPositive(s: seq<int>)
    requires forall i :: 0 <= i < |s| ==> s[i] > 0
    ensures Prod(s) > 0
  {
    if s != [] {
      ProdPositive(s[1..]);
      MulAtLeast(s[0], Prod(s[1..]));
    }
  }

  /** Taking one factor out of the product. */
  lemma {:induction false} ProdRemoveAt(s: seq<int>, i: nat)
    requires i < |s|
    ensures Prod(s) == s[i] * Prod(RemoveAt(s, i))
  {
    if i > 0 {
      ProdRemoveAt(s[1..], i - 1);
      assert RemoveAt(s, i) == [s[0]] + RemoveAt(s[1..], i - 1);
      assert RemoveAt(s, i)[1..] == RemoveAt(s[1..], i - 1);
    } else {
      assert RemoveAt(s, 0) == s[1..];
    }
  }

  /** Every positive factor divides the product. */
  lemma ProdDivisible(s: seq<int>, i: nat)
    requires i < |s| && s[i] > 0
    ensures Divides(s[i], Prod(s))
  {
    var rest := Prod(RemoveAt(s, i));
    ProdRemoveAt(s, i);
    assert Prod(s) == rest * s[i];
    DividesMultiple(s[i], rest);
  }

  /** A product of positive factors each coprime to `m` is coprime to `m`. */
  lemma {:induction false} ProdCoprime(s: seq<int>, m: int)
    requires m > 0
    requires forall i :: 0 <= i < |s| ==> s[i] > 0 && Coprime(s[i], m)
    ensures Coprime(Prod(s), m)
  {
    if s == [] {
      CoprimeOne(m);
    } else {
      ProdCoprime(s[1..], m);
      ProdPositive(s[1..]);
      CoprimeMul(s[0], Prod(s[1..]), m);
    }
  }
}
