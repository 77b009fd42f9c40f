/** The modular-arithmetic library: square-and-multiply exponentiation, the
    extended-Euclid inverse and the direct Chinese-Remainder combination.
    All values are JavaScript bigints, so `/` and `%` truncate toward zero
    and a zero divisor throws. */
module MathUtils {
  import opened Arith
  import opened Js

  /** Splitting off the low bit of the exponent `2 * half + bit`: `res * base^exp` is the
      new `res` before reduction times `(base * base)^half`. */
  lemma LowBitSplit(res: int, base: int, half: nat, odd: bool)
    ensures res * Pow(base, 2 * half + (if odd then 1 else 0)) ==
      (if odd then res * base else res) * Pow(base * base, half)
  {
    PowSquare(base, half);
    if odd {
      assert res * (base * Pow(base * base, half)) == (res * base) * Pow(base * base, half);
    }
  }

  /** One pass of square-and-multiply keeps `res * base^exp` in the same residue class. */
  lemma SquareMultiplyStep(res: int, base: int, exp: int, m: int, target: int)
    requires m != 0 && exp > 0 && Cong(res * Pow(base, exp), target, Abs(m))
    ensures var res' := if exp % 2 == 1 then JsMod(res * base, m) else res;
      Cong(res' * Pow(JsMod(base * base, m), exp / 2), target, Abs(m))
  {
    var half: nat, odd := exp / 2, exp % 2 == 1;
    assert exp == 2 * half + (if odd then 1 else 0);
    SquareMultiplyHalves(res, base, half, odd, m, target);
  }

  /** The step for the exponent `2 * half + bit`, with the bit given as a flag. */
  lemma SquareMultiplyHalves(res: int, base: int, half: nat, odd: bool, m: int, target: int)
    requires m != 0 && Cong(res * Pow(base, 2 * half + (if odd then 1 else 0)), target, Abs(m))
    ensures var res' := if odd then JsMod(res * base, m) else res;
      Cong(res' * Pow(JsMod(base * base, m), half), target, Abs(m))
  {
    var M := Abs(m);
    var res' := if odd then JsMod(res * base, m) else res;
    var base' := JsMod(base * base, m);
    var pre := if odd then res * base else res;
    var rest := Pow(base * base, half);
    LowBitSplit(res, base, half, odd);
    assert Cong(res', pre, M) by {
      if odd {
        JsModCong(res * base, m);
      } else {
        CongRefl(res, M);
      }
    }
    assert Cong(Pow(base', half), rest, M) by {
      JsModCong(base * base, m);
      PowCong(base', base * base, half, M);
    }
    CongMul(res', pre, Pow(base', half), rest, M);
    CongTrans(res' * Pow(base', half), pre * rest, target, M);
  }

  /** `powerMod`: `base^exp` reduced modulo `mod`, by square-and-multiply. The
      first reduction `base % mod` runs even when the loop does not, so a zero
      modulus always throws; a non-positive exponent returns the unreduced `1`. */
  method PowerMod(b: int, e: int, m: int) returns (r: Result<int>)
    ensures r.Thrown? <==> m == 0
    ensures m != 0 && e <= 0 ==> r == Ok(1)
    ensures m != 0 && e > 0 ==> r.Ok? && Abs(r.value) < Abs(m) && Cong(r.value, Pow(b, e), Abs(m))
    ensures m > 0 && b >= 0 && e > 0 ==> r.Ok? && r.value == Pow(b, e) % m
  {
    if m == 0 {
      return Thrown(DivisionByZero);
    }
    ghost var M := Abs(m);
    var res := 1;
    var base := JsMod(b, m);
    var exp := e;
    JsModCong(b, m);
    PowCong(base, b, if e > 0 then e else 0, M);
    ghost var reduced := false;
    while exp > 0
      invariant e <= 0 ==> exp == e && res == 1 && !reduced
      invariant e > 0 ==> exp >= 0 && Cong(res * Pow(base, exp), Pow(b, e), M)
      invariant Abs(base) < M
      invariant reduced ==> Abs(res) < M
      invariant !reduced ==> res == 1
      invariant reduced || exp > 0 || e <= 0
      invariant b >= 0 ==> base >= 0 && res >= 0
      decreases exp
    {
      var half := JsDiv(exp, 2);
      assert half == exp / 2 && JsMod(exp, 2) == exp % 2;
      if e > 0 {
        SquareMultiplyStep(res, base, exp, m, Pow(b, e));
      }
      if JsMod(exp, 2) == 1 {
        res := JsMod(res * base, m);
        reduced := true;
      }
      base := JsMod(base * base, m);
      exp := half;
    }
    if e > 0 && m > 0 && b >= 0 {
      CongIffSameMod(res, Pow(b, e), m);
      ModUnique(res, 0, res, m);
    }
    return Ok(res);
  }

  /** `mulInv`: the inverse of `a` modulo `b` by the extended Euclidean algorithm.
      `b == 1` returns `1` at once; otherwise the loop runs Euclid on `(a, b)` while
      tracking the coefficient of `a`. When `a` and `b` share a factor the remainder
      reaches `0` while `a > 1`, and the next `a / b` throws. */
  method MulInv(a: int, b: int) returns (r: Result<int>)
    ensures b == 1 || a <= 1 ==> r == Ok(1)
    ensures a >= 1 && b > 1 ==> (r.Ok? <==> Coprime(a, b))
    ensures a >= 1 && b > 1 && r.Ok? ==> 0 <= r.value < b && (a * r.value) % b == 1
  {
    var b0 := b;
    var x0, x1 := 0, 1;
    if b == 1 {
      return Ok(1);
    }
    var u, v := a, b;
    ghost var good := a >= 1 && b > 1;
    // Bezout coefficients of `b`: u == x1 * a + y1 * b and v == x0 * a + y0 * b
    ghost var y0, y1 := 1, 0;
    while u > 1
      invariant a <= 1 ==> u == a && x1 == 1
      invariant good ==> EuclidInv(a, b, u, v, x0, x1, y0, y1)
      decreases Abs(v)
    {
      if v == 0 {
        if good {
          MultipleMod(1, u);
          assert Divides(u, u) && Divides(u, v);
        }
        return Thrown(DivisionByZero);
      }
      var q := JsDiv(u, v);
      var rem := JsMod(u, v);
      if good {
        JsDivMod(u, v);
        EuclidStep(a, b, u, v, q, rem, x0, x1, y0, y1);
      }
      u, v := v, rem;
      x0, x1 := x1 - q * x0, x0;
      y0, y1 := y1 - q * y0, y0;
    }
    if good {
      assert u == 1;
      forall d | Divides(d, a) && Divides(d, b) ensures d == 1 {
        OneOnlyDivisorOfOne(d);
      }
      InverseInRange(a, b, x1, y1);
    }
    if x1 < 0 {
      x1 := x1 + b0;
    }
    return Ok(x1);
  }

  /** `u` is the integer combination `x * a + y * b`. */
  ghost predicate Combination(a: int, b: int, u: int, x: int, y: int)
  {
    u == x * a + y * b
  }

  /** The coefficients of `a` alternate in sign and, weighted by the remainders,
      add up to `b`; so they never exceed `b` in size. */
  ghost predicate WeightedCoefficients(b: int, u: int, v: int, x0: int, x1: int)
  {
    u * Abs(x0) + v * Abs(x1) == b && x0 * x1 <= 0 && (x1 == 1 || 2 * Abs(x1) <= b)
  }

  ghost predicate SameCommonDivisors(a: int, b: int, u: int, v: int)
  {
    forall d :: Divides(d, u) && Divides(d, v) <==> Divides(d, a) && Divides(d, b)
  }

  /** The state of the extended Euclidean loop on inputs `a >= 1, b > 1`: `(u, v)`
      is the current remainder pair, `x1, x0` their coefficients of `a` (and `y1, y0`
      of `b`), and the common divisors of `(u, v)` are those of `(a, b)`. */
  ghost predicate EuclidInv(a: int, b: int, u: int, v: int, x0: int, x1: int, y0: int, y1: int)
  {
    u >= 1 && v >= 0 &&
    Combination(a, b, u, x1, y1) && Combination(a, b, v, x0, y0) &&
    WeightedCoefficients(b, u, v, x0, x1) &&
    SameCommonDivisors(a, b, u, v)
  }

  lemma AlternatingCoefficients(x0: int, x1: int, q: int)
    requires q >= 0 && x0 * x1 <= 0
    ensures Abs(x1 - q * x0) == Abs(x1) + q * Abs(x0)
    ensures (x1 - q * x0) * x0 <= 0
  {
    if x0 >= 0 {
      assert q * x0 >= 0;
    } else {
      assert q * x0 <= 0;
    }
    assert (x1 - q * x0) * x0 == x1 * x0 - q * (x0 * x0);
    assert q * (x0 * x0) >= 0;
  }

  lemma WeightedSumStep(u: int, v: int, q: int, rem: int, w0: int, w1: int)
    requires u == q * v + rem
    ensures v * (w1 + q * w0) + rem * w0 == u * w0 + v * w1
  {
  }

  lemma WeightedStep(b: int, u: int, v: int, q: int, rem: int, x0: int, x1: int)
    requires WeightedCoefficients(b, u, v, x0, x1)
    requires u > 1 && v > 0 && q >= 0 && rem >= 0 && u == q * v + rem
    ensures WeightedCoefficients(b, v, rem, x1 - q * x0, x0)
  {
    AlternatingCoefficients(x0, x1, q);
    WeightedSumStep(u, v, q, rem, Abs(x0), Abs(x1));
    MulAtLeast(u - 1, Abs(x0));
    assert u * Abs(x0) == (u - 1) * Abs(x0) + Abs(x0);
    assert v * Abs(x1) >= 0;
  }

  lemma CombinationStep(a: int, b: int, u: int, v: int, q: int, x0: int, x1: int, y0: int, y1: int)
    requires Combination(a, b, u, x1, y1) && Combination(a, b, v, x0, y0)
    ensures Combination(a, b, u - q * v, x1 - q * x0, y1 - q * y0)
  {
  }

  lemma CommonDivisorsKept(a: int, b: int, u: int, v: int, q: int)
    requires SameCommonDivisors(a, b, u, v)
    ensures SameCommonDivisors(a, b, v, u - q * v)
  {
    forall d ensures Divides(d, v) && Divides(d, u - q * v) <==> Divides(d, a) && Divides(d, b) {
      CommonDivisorsStep(u, v, q, d);
    }
  }

  /** One pass of the extended Euclidean loop, with `u == q * v + rem` and `0 <= rem < v`,
      preserves its state invariant. */
  lemma EuclidStep(a: int, b: int, u: int, v: int, q: int, rem: int, x0: int, x1: int, y0: int, y1: int)
    requires EuclidInv(a, b, u, v, x0, x1, y0, y1) && u > 1 && v > 0
    requires u == q * v + rem && 0 <= rem < v
    ensures EuclidInv(a, b, v, rem, x1 - q * x0, x0, y1 - q * y0, y0)
  {
    QuotientNonNegative(u, v, q, rem);
    assert rem == u - q * v;
    assert WeightedCoefficients(b, v, rem, x1 - q * x0, x0) by {
      WeightedStep(b, u, v, q, rem, x0, x1);
    }
    assert Combination(a, b, rem, x1 - q * x0, y1 - q * y0) by {
      CombinationStep(a, b, u, v, q, x0, x1, y0, y1);
    }
    assert SameCommonDivisors(a, b, v, rem) by {
      CommonDivisorsKept(a, b, u, v, q);
    }
  }

  /** A positive dividend has a non-negative quotient. */
  lemma QuotientNonNegative(u: int, v: int, q: int, rem: int)
    requires u > 0 && v > 0 && u == q * v + rem && rem < v
    ensures q >= 0
  {
    if q < 0 {
      MulAtLeast(-q, v);
      assert false;
    }
  }

  /** When the loop stops at `u == 1`, the coefficient of `a`, shifted into `[0, b)`,
      is the inverse. */
  lemma InverseInRange(a: int, b: int, x1: int, y1: int)
    requires b > 1 && 1 == x1 * a + y1 * b && (x1 == 1 || 2 * Abs(x1) <= b)
    ensures var x := if x1 < 0 then x1 + b else x1; 0 <= x < b && (a * x) % b == 1
  {
    if x1 < 0 {
      assert a * (x1 + b) == (a - y1) * b + 1;
      ModUnique(a * (x1 + b), a - y1, 1, b);
    } else {
      assert a * x1 == -y1 * b + 1;
      ModUnique(a * x1, -y1, 1, b);
    }
  }

  /** The cofactor `prod / m_i` is the product of the other moduli. */
  lemma CofactorIsProduct(ms: seq<int>, i: nat)
    requires i < |ms| && forall j :: 0 <= j < |ms| ==> ms[j] > 0
    ensures Prod(ms) > 0 && JsDiv(Prod(ms), ms[i]) == Prod(RemoveAt(ms, i)) > 0
  {
    ProdPositive(ms);
    ProdPositive(RemoveAt(ms, i));
    ProdRemoveAt(ms, i);
    JsNonNeg(Prod(ms), ms[i]);
    ModUnique(Prod(ms), Prod(RemoveAt(ms, i)), 0, ms[i]);
  }

  /** For pairwise-coprime moduli the cofactor of `m_i` is coprime to `m_i` and a
      multiple of every other modulus. */
  lemma {:induction false} CofactorProperties(ms: seq<int>, i: nat)
    requires i < |ms| && forall j :: 0 <= j < |ms| ==> ms[j] > 0
    requires PairwiseCoprime(ms)
    ensures Coprime(Prod(RemoveAt(ms, i)), ms[i])
    ensures forall t :: 0 <= t < |ms| && t != i ==> Cong(Prod(RemoveAt(ms, i)), 0, ms[t])
  {
    var rest := RemoveAt(ms, i);
    forall j | 0 <= j < |rest| ensures rest[j] > 0 && Coprime(rest[j], ms[i]) {
      assert rest[j] == ms[if j < i then j else j + 1];
    }
    ProdCoprime(rest, ms[i]);
    forall t | 0 <= t < |ms| && t != i ensures Cong(Prod(rest), 0, ms[t]) {
      var k := if t < i then t else t - 1;
      assert rest[k] == ms[t];
      ProdDivisible(rest, k);
    }
  }

  /** What `mulInv` returns for a cofactor makes `inv * p` congruent to `1`. */
  lemma InverseCong(p: int, inv: int, m: int)
    requires m >= 1 && (m == 1 || (p * inv) % m == 1)
    ensures Cong(inv * p, 1, m)
  {
    if m > 1 {
      assert (inv * p) % m == 1 % m;
      CongIffSameMod(inv * p, 1, m);
    }
  }

  lemma NonNegTerm(r: int, inv: int, p: int)
    requires r >= 0 && inv >= 0 && p >= 0
    ensures r * inv * p >= 0
  {
  }

  /** `result` is congruent to `r_t` modulo `m_t` for the first `i` moduli and to `0`
      modulo the rest. */
  ghost predicate SolvesPrefix(result: int, remainders: seq<int>, moduli: seq<int>, i: nat)
    requires |remainders| == |moduli|
  {
    forall t :: 0 <= t < |moduli| ==> Cong(result, if t < i then remainders[t] else 0, moduli[t])
  }

  /** Adding the `i`-th term `r_i * inv_i * p_i` sets the residue modulo `m_i` to `r_i`
      and leaves every other residue unchanged, since `p_i` is a multiple of the
      other moduli. */
  lemma CrtTermStep(remainders: seq<int>, moduli: seq<int>, i: nat, result: int, p: int, inv: int)
    requires |remainders| == |moduli| && i < |moduli|
    requires forall j :: 0 <= j < |moduli| ==> moduli[j] > 0
    requires PairwiseCoprime(moduli)
    requires p == Prod(RemoveAt(moduli, i)) && Cong(inv * p, 1, moduli[i])
    requires SolvesPrefix(result, remainders, moduli, i)
    ensures SolvesPrefix(result + remainders[i] * inv * p, remainders, moduli, i + 1)
  {
    var term := remainders[i] * inv * p;
    CofactorProperties(moduli, i);
    forall t | 0 <= t < |moduli|
      ensures Cong(result + term, if t < i + 1 then remainders[t] else 0, moduli[t])
    {
      var before := if t < i then remainders[t] else 0;
      var added := if t == i then remainders[t] else 0;
      assert Cong(term, added, moduli[t]) by {
        if t == i {
          OwnTerm(remainders[i], inv, p, moduli[i]);
        } else {
          CongMultipleZero(p, remainders[i] * inv, moduli[t]);
        }
      }
      CongAdd(result, before, term, added, moduli[t]);
      assert before + added == if t < i + 1 then remainders[t] else 0;
    }
  }

  /** The term `r * inv * p` is `r` modulo `m` when `inv * p` is `1` modulo `m`. */
  lemma OwnTerm(r: int, inv: int, p: int, m: int)
    requires Cong(inv * p, 1, m)
    ensures Cong(r * inv * p, r, m)
  {
    CongRefl(r, m);
    CongMul(r, r, inv * p, 1, m);
    assert r * (inv * p) == r * inv * p;
  }

  /** `solveCRT`: the Chinese-Remainder combination `sum r_i * inv(p_i, m_i) * p_i`
      reduced modulo the product of the moduli, where `p_i` is that product divided
      by `m_i`. The declared result may be `null`, but no path returns it; a zero
      modulus throws at `prod / m`. */
  method SolveCRT(remainders: seq<int>, moduli: seq<int>) returns (r: Result<Option<int>>)
    requires |remainders| == |moduli|
    ensures r.Ok? ==> r.value.Some?
    ensures moduli == [] ==> r == Ok(Some(0))
    ensures (exists i :: 0 <= i < |moduli| && moduli[i] == 0) ==> r.Thrown?
    ensures (forall i :: 0 <= i < |moduli| ==> moduli[i] > 0) && PairwiseCoprime(moduli) ==>
      r.Ok? && Abs(r.value.value) < Prod(moduli) &&
      forall i :: 0 <= i < |moduli| ==> Cong(r.value.value, remainders[i], moduli[i])
    ensures (forall i :: 0 <= i < |moduli| ==> moduli[i] > 0 && remainders[i] >= 0) && PairwiseCoprime(moduli) ==>
      r.Ok? && 0 <= r.value.value < Prod(moduli)
    ensures (forall i :: 0 <= i < |moduli| ==> moduli[i] > 0) && !PairwiseCoprime(moduli) ==> r.Thrown?
  {
    var prod := Prod(moduli);
    var result := 0;
    ghost var good := (forall j :: 0 <= j < |moduli| ==> moduli[j] > 0) && PairwiseCoprime(moduli);
    ghost var allPos := forall j :: 0 <= j < |moduli| ==> moduli[j] > 0;
    ghost var nonNeg := forall j :: 0 <= j < |remainders| ==> remainders[j] >= 0;
    var i := 0;
    while i < |moduli|
      invariant 0 <= i <= |moduli|
      invariant forall j :: 0 <= j < i ==> moduli[j] != 0
      invariant good ==> SolvesPrefix(result, remainders, moduli, i)
      invariant good && nonNeg ==> result >= 0
      invariant allPos ==> CofactorsCoprimeUpTo(moduli, i)
    {
      var m := moduli[i];
      if m == 0 {
        return Thrown(DivisionByZero);
      }
      var p := JsDiv(prod, m);
      var inv := MulInv(p, m);
      if inv.Thrown? {
        if good {
          CofactorIsProduct(moduli, i);
          CofactorProperties(moduli, i);
        }
        return Thrown(inv.fault);
      }
      if allPos {
        CofactorIsProduct(moduli, i);
        CofactorsCoprimeStep(moduli, i, p);
      }
      var term := remainders[i] * inv.value * p;
      if good {
        InverseCong(p, inv.value, m);
        CrtTermStep(remainders, moduli, i, result, p, inv.value);
        if nonNeg {
          NonNegTerm(remainders[i], inv.value, p);
        }
      }
      result := result + term;
      i := i + 1;
    }
    ProdNonZero(moduli);
    var x := JsMod(result, prod);
    if good {
      ReducedSolution(remainders, moduli, result);
    }
    if allPos {
      CofactorsCoprime(moduli);
    }
    return Ok(Some(x));
  }

  /** `1` is coprime to everything. */
  lemma TrivialCoprime(p: int, m: int)
    requires p == 1 || m == 1
    ensures Coprime(p, m)
  {
    forall d | Divides(d, p) && Divides(d, m) ensures d == 1 {
      OneOnlyDivisorOfOne(d);
    }
  }

  /** The first `i` moduli are each coprime to the product of the others. */
  ghost predicate CofactorsCoprimeUpTo(ms: seq<int>, i: nat)
  {
    i <= |ms| && forall j :: 0 <= j < i ==> Coprime(Prod(RemoveAt(ms, j)), ms[j])
  }

  /** `mulInv(p, m_i)` returned, so the cofactor `p` is coprime to `m_i`: either one of
      them is `1`, or the Euclidean loop reached `1`. */
  lemma CofactorsCoprimeStep(ms: seq<int>, i: nat, p: int)
    requires i < |ms| && CofactorsCoprimeUpTo(ms, i) && p == Prod(RemoveAt(ms, i))
    requires p == 1 || ms[i] == 1 || Coprime(p, ms[i])
    ensures CofactorsCoprimeUpTo(ms, i + 1)
  {
    if p == 1 || ms[i] == 1 {
      TrivialCoprime(p, ms[i]);
    }
  }

  /** If every modulus is coprime to the product of the others, the moduli are
      pairwise coprime: a common divisor of `m_i` and `m_j` divides the cofactor of `m_j`. */
  lemma CofactorsCoprime(ms: seq<int>)
    requires forall j :: 0 <= j < |ms| ==> ms[j] > 0
    requires CofactorsCoprimeUpTo(ms, |ms|)
    ensures PairwiseCoprime(ms)
  {
    forall i, j | 0 <= i < |ms| && 0 <= j < |ms| && i != j ensures Coprime(ms[i], ms[j]) {
      var rest := RemoveAt(ms, j);
      var k := if i < j then i else i - 1;
      assert rest[k] == ms[i];
      ProdDivisible(rest, k);
      forall d | Divides(d, ms[i]) && Divides(d, ms[j]) ensures d == 1 {
        DividesTrans(d, ms[i], Prod(rest));
      }
    }
  }

  /** Reducing a solution modulo the product of the moduli keeps it a solution. */
  lemma ReducedSolution(remainders: seq<int>, moduli: seq<int>, result: int)
    requires |remainders| == |moduli| && forall j :: 0 <= j < |moduli| ==> moduli[j] > 0
    requires forall t :: 0 <= t < |moduli| ==> Cong(result, remainders[t], moduli[t])
    ensures Prod(moduli) > 0 &&
      forall t :: 0 <= t < |moduli| ==> Cong(JsMod(result, Prod(moduli)), remainders[t], moduli[t])
  {
    var prod := Prod(moduli);
    ProdPositive(moduli);
    var x := JsMod(result, prod);
    JsModCong(result, prod);
    forall t | 0 <= t < |moduli| ensures Cong(x, remainders[t], moduli[t]) {
      ProdDivisible(moduli, t);
      CongDivisor(x, result, prod, moduli[t]);
      CongTrans(x, result, remainders[t], moduli[t]);
    }
  }

  /** A product of non-zero factors is non-zero. */
  lemma {:induction false} ProdNonZero(s: seq<int>)
    requires forall j :: 0 <= j < |s| ==> s[j] != 0
    ensures Prod(s) != 0
  {
    if s != [] {
      ProdNonZero(s[1..]);
    }
  }
}
