/** JavaScript semantics that the solvers rely on: `bigint` division and
    remainder truncate toward zero, and dividing by zero throws a RangeError. */
module Js {
  import opened Arith

  datatype Option<T> = None | Some(value: T)

  /** The exceptions the modelled code can raise. */
  datatype Fault = DivisionByZero

  /** A computation that either returns a value or throws. */
  datatype Result<T> = Ok(value: T) | Thrown(fault: Fault)

  /** `x / m` on bigints: the quotient truncated toward zero. */
  function JsDiv(x: int, m: int): int
    requires m != 0
  {
    var q := Abs(x) / Abs(m);
    if (x >= 0) == (m > 0) then q else -q
  }

  /** `x % m` on bigints: the remainder takes the sign of the dividend. */
  function JsMod(x: int, m: int): (r: int)
    requires m != 0
    ensures Abs(r) < Abs(m)
    ensures x >= 0 ==> r >= 0
    ensures x <= 0 ==> r <= 0
  {
    if x >= 0 then x % Abs(m) else -((-x) % Abs(m))
  }

  /** Truncating division and remainder recompose the dividend. */
  lemma JsDivMod(x: int, m: int)
    requires m != 0
    ensures x == JsDiv(x, m) * m + JsMod(x, m)
  {
    var q, r := Abs(x) / Abs(m), Abs(x) % Abs(m);
    assert Abs(x) == q * Abs(m) + r;
    if x >= 0 && m < 0 {
      assert q * Abs(m) == (-q) * m;
    } else if x < 0 && m > 0 {
      assert x == (-q) * m - r;
    } else if x < 0 && m < 0 {
      assert q * Abs(m) == -(q * m);
    }
  }

  /** On a non-negative dividend and a positive divisor both agree with Euclidean division. */
  lemma JsNonNeg(x: int, m: int)
    requires x >= 0 && m > 0
    ensures JsDiv(x, m) == x / m && JsMod(x, m) == x % m
  {
  }

  /** The truncated remainder is congruent to the dividend modulo `|m|`. */
  lemma JsModCong(x: int, m: int)
    requires m != 0
    ensures Cong(JsMod(x, m), x, Abs(m))
  {
    JsDivMod(x, m);
    RemainderCong(x, m, JsDiv(x, m), JsMod(x, m));
  }

  /** Whatever the rounding, a remainder `r` with `x == q * m + r` is congruent to `x`
      modulo `|m|`. */
  lemma RemainderCong(x: int, m: int, q: int, r: int)
    requires m != 0 && x == q * m + r
    ensures Cong(r, x, Abs(m))
  {
    if m > 0 {
      assert r - x == (-q) * m;
      MultipleIsCong(r, x, -q, m);
    } else {
      assert r - x == q * Abs(m);
      MultipleIsCong(r, x, q, Abs(m));
    }
  }

  /** With a positive modulus, a truncated remainder lies in `(-m, m)`; shifting it by `m`
      and reducing again lands in `[0, m)` on the Euclidean remainder. */
  lemma JsModShift(x: int, m: int)
    requires m > 0
    ensures JsMod(JsMod(x, m) + m, m) == x % m
  {
    var r := JsMod(x, m);
    JsModCong(x, m);
    assert r + m > 0;
    JsNonNeg(r + m, m);
    assert Cong(r + m, r, m) by { MultipleIsCong(r + m, r, 1, m); }
    CongTrans(r + m, r, x, m);
    CongIffSameMod(r + m, x, m);
  }
}
