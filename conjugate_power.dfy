/** The conjugate-power screen: `S_n = (a + sqrt b)^n + (a - sqrt b)^n`, both exactly by
    its linear recurrence and modulo `c` by binary powering of the 2x2 recurrence matrix. */
module ConjugatePower {
  import opened Arith
  import opened Js

  // ---------------------------------------------------------------------------
  // 2x2 integer matrices

  /** A 2x2 matrix of bigints, row by row. */
  type Mat = m: seq<seq<int>> | |m| == 2 && |m[0]| == 2 && |m[1]| == 2 witness [[0, 0], [0, 0]]

  /** Row `i` of `x` times column `j` of `y`. */
  function Entry(x: Mat, y: Mat, i: int, j: int): int
    requires 0 <= i < 2 && 0 <= j < 2
  {
    x[i][0] * y[0][j] + x[i][1] * y[1][j]
  }

  /** The exact matrix product. */
  function MatMul(x: Mat, y: Mat): Mat
  {
    [[Entry(x, y, 0, 0), Entry(x, y, 0, 1)], [Entry(x, y, 1, 0), Entry(x, y, 1, 1)]]
  }

  function Identity(): Mat
  {
    [[1, 0], [0, 1]]
  }

  /** The exact power `x^p`. */
  function MatPow(x: Mat, p: nat): Mat
  {
    if p == 0 then Identity() else MatMul(x, MatPow(x, p - 1))
  }

  /** Entrywise congruence modulo `m`. */
  ghost predicate MatCong(x: Mat, y: Mat, m: int)
  {
    m > 0 && forall i, j :: 0 <= i < 2 && 0 <= j < 2 ==> Cong(x[i][j], y[i][j], m)
  }

  /** Every entry lies in `[0, mod)`. */
  predicate Reduced(x: Mat, mod: int)
  {
    forall i, j :: 0 <= i < 2 && 0 <= j < 2 ==> 0 <= x[i][j] < mod
  }

  /** Matrices with the same four entries are equal. */
  lemma MatExt(x: Mat, y: Mat)
    requires x[0][0] == y[0][0] && x[0][1] == y[0][1] && x[1][0] == y[1][0] && x[1][1] == y[1][1]
    ensures x == y
  {
    assert x[0] == y[0] && x[1] == y[1];
  }

  lemma AssocEntry(a0: int, a1: int, b00: int, b01: int, b10: int, b11: int, c0: int, c1: int)
    ensures (a0 * b00 + a1 * b10) * c0 + (a0 * b01 + a1 * b11) * c1
         == a0 * (b00 * c0 + b01 * c1) + a1 * (b10 * c0 + b11 * c1)
  {
  }

  lemma MatMulAssoc(x: Mat, y: Mat, z: Mat)
    ensures MatMul(MatMul(x, y), z) == MatMul(x, MatMul(y, z))
  {
    var l, r := MatMul(MatMul(x, y), z), MatMul(x, MatMul(y, z));
    forall i, j | 0 <= i < 2 && 0 <= j < 2 ensures l[i][j] == r[i][j] {
      AssocEntry(x[i][0], x[i][1], y[0][0], y[0][1], y[1][0], y[1][1], z[0][j], z[1][j]);
    }
    MatExt(l, r);
  }

  lemma MatMulIdentity(x: Mat)
    ensures MatMul(Identity(), x) == x && MatMul(x, Identity()) == x
  {
    MatExt(MatMul(Identity(), x), x);
    MatExt(MatMul(x, Identity()), x);
  }

  lemma MatCongRefl(x: Mat, m: int)
    requires m > 0
    ensures MatCong(x, x, m)
  {
    forall i, j | 0 <= i < 2 && 0 <= j < 2 ensures Cong(x[i][j], x[i][j], m) {
      CongRefl(x[i][j], m);
    }
  }

  lemma MatCongTrans(x: Mat, y: Mat, z: Mat, m: int)
    requires MatCong(x, y, m) && MatCong(y, z, m)
    ensures MatCong(x, z, m)
  {
    forall i, j | 0 <= i < 2 && 0 <= j < 2 ensures Cong(x[i][j], z[i][j], m) {
      CongTrans(x[i][j], y[i][j], z[i][j], m);
    }
  }

  /** The product respects entrywise congruence. */
  lemma MatMulCong(x: Mat, x': Mat, y: Mat, y': Mat, m: int)
    requires MatCong(x, x', m) && MatCong(y, y', m)
    ensures MatCong(MatMul(x, y), MatMul(x', y'), m)
  {
    forall i, j | 0 <= i < 2 && 0 <= j < 2 ensures Cong(Entry(x, y, i, j), Entry(x', y', i, j), m) {
      CongMul(x[i][0], x'[i][0], y[0][j], y'[0][j], m);
      CongMul(x[i][1], x'[i][1], y[1][j], y'[1][j], m);
      CongAdd(x[i][0] * y[0][j], x'[i][0] * y'[0][j], x[i][1] * y[1][j], x'[i][1] * y'[1][j], m);
    }
    var l, r := MatMul(x, y), MatMul(x', y');
    assert forall i, j :: 0 <= i < 2 && 0 <= j < 2 ==> l[i][j] == Entry(x, y, i, j) && r[i][j] == Entry(x', y', i, j);
  }

  lemma {:induction false} MatPowCong(x: Mat, x': Mat, p: nat, m: int)
    requires MatCong(x, x', m)
    ensures MatCong(MatPow(x, p), MatPow(x', p), m)
  {
    if p == 0 {
      MatCongRefl(Identity(), m);
    } else {
      MatPowCong(x, x', p - 1, m);
      MatMulCong(x, x', MatPow(x, p - 1), MatPow(x', p - 1), m);
    }
  }

  lemma {:induction false} MatPowSucc(x: Mat, p: nat)
    ensures MatMul(MatPow(x, p), x) == MatPow(x, p + 1)
  {
    if p == 0 {
      MatMulIdentity(x);
    } else {
      MatPowSucc(x, p - 1);
      MatMulAssoc(x, MatPow(x, p - 1), x);
    }
  }

  /** Squaring the base halves the exponent. */
  lemma {:induction false} MatPowSquare(x: Mat, k: nat)
    ensures MatPow(MatMul(x, x), k) == MatPow(x, 2 * k)
  {
    if k > 0 {
      MatPowSquare(x, k - 1);
      MatPowSucc(x, 2 * k - 2);
      MatMulAssoc(x, x, MatPow(x, 2 * k - 2));
    }
  }

  // ---------------------------------------------------------------------------
  // multiply

  /** The sum of the first `k` terms of `(x y)[i][j]`. */
  function PartialEntry(x: Mat, y: Mat, i: int, j: int, k: int): int
    requires 0 <= i < 2 && 0 <= j < 2 && 0 <= k <= 2
  {
    if k == 0 then 0 else PartialEntry(x, y, i, j, k - 1) + x[i][k - 1] * y[k - 1][j]
  }

  /** A cell of the product that holds `e` reduced modulo `mod`. */
  predicate CellHolds(v: int, e: int, mod: int)
    requires mod != 0
  {
    Cong(v, e, Abs(mod)) && Abs(v) < Abs(mod) && (mod > 0 ==> v >= 0)
  }

  /** Cells before position `t` in row-major order are finished. */
  ghost predicate CellsBefore(c: array2<int>, x: Mat, y: Mat, mod: int, t: int)
    reads c
    requires c.Length0 == 2 && c.Length1 == 2 && mod != 0
  {
    (0 < t ==> CellHolds(c[0, 0], Entry(x, y, 0, 0), mod)) &&
    (1 < t ==> CellHolds(c[0, 1], Entry(x, y, 0, 1), mod)) &&
    (2 < t ==> CellHolds(c[1, 0], Entry(x, y, 1, 0), mod)) &&
    (3 < t ==> CellHolds(c[1, 1], Entry(x, y, 1, 1), mod))
  }

  /** One update `C[i][j] = (C[i][j] + (A[i][k] * B[k][j]) % mod + mod) % mod`. */
  lemma CellStep(cur: int, term: int, mod: int, partial: int)
    requires mod != 0 && CellHolds(cur, partial, mod)
    ensures CellHolds(JsMod(cur + JsMod(term, mod) + mod, mod), partial + term, mod)
  {
    var v := JsMod(term, mod);
    var next := JsMod(cur + v + mod, mod);
    JsModCong(term, mod);
    JsModCong(cur + v + mod, mod);
    CongAdd(cur, partial, v, term, Abs(mod));
    if mod > 0 {
      MultipleIsCong(cur + v + mod, cur + v, 1, mod);
    } else {
      MultipleIsCong(cur + v + mod, cur + v, -1, Abs(mod));
    }
    CongTrans(cur + v + mod, cur + v, partial + term, Abs(mod));
    CongTrans(next, cur + v + mod, partial + term, Abs(mod));
  }

  /** The innermost `k` loop of `multiply`: `C[i][j]` starts at `0` and takes each product
      term reduced by `%` and renormalised by `+ mod`. The finished cell holds the entry
      `(A B)[i][j]` reduced modulo `mod`. */
  method ProductCell(x: Mat, y: Mat, mod: int, i: int, j: int) returns (cell: int)
    requires mod != 0 && 0 <= i < 2 && 0 <= j < 2
    ensures CellHolds(cell, Entry(x, y, i, j), mod)
  {
    cell := 0;
    CongRefl(0, Abs(mod));
    for k := 0 to 2
      invariant CellHolds(cell, PartialEntry(x, y, i, j, k), mod)
    {
      var v := JsMod(x[i][k] * y[k][j], mod);
      CellStep(cell, x[i][k] * y[k][j], mod, PartialEntry(x, y, i, j, k));
      cell := JsMod(cell + v + mod, mod);
    }
    assert PartialEntry(x, y, i, j, 2) == Entry(x, y, i, j);
  }

  /** `multiply(A, B, mod)`: fills a fresh 2x2 array cell by cell in row-major order.
      Every cell is congruent to the exact product modulo `|mod|`, smaller than `|mod|`
      in magnitude, and in `[0, mod)` for a positive modulus, whatever the signs of the
      inputs. */
  method Multiply(x: Mat, y: Mat, mod: int) returns (r: Mat)
    requires mod != 0
    ensures MatCong(r, MatMul(x, y), Abs(mod))
    ensures forall i, j :: 0 <= i < 2 && 0 <= j < 2 ==> Abs(r[i][j]) < Abs(mod)
    ensures mod > 0 ==> Reduced(r, mod)
  {
    var c := new int[2, 2]((_, _) => 0);
    for i := 0 to 2
      invariant CellsBefore(c, x, y, mod, 2 * i)
    {
      for j := 0 to 2
        invariant CellsBefore(c, x, y, mod, 2 * i + j)
      {
        var cell := ProductCell(x, y, mod, i, j);
        c[i, j] := cell;
      }
    }
    r := [[c[0, 0], c[0, 1]], [c[1, 0], c[1, 1]]];
    FilledMatrix(x, y, mod, r);
  }

  /** Four finished cells make the reduced product. */
  lemma FilledMatrix(x: Mat, y: Mat, mod: int, r: Mat)
    requires mod != 0
    requires CellHolds(r[0][0], Entry(x, y, 0, 0), mod) && CellHolds(r[0][1], Entry(x, y, 0, 1), mod)
    requires CellHolds(r[1][0], Entry(x, y, 1, 0), mod) && CellHolds(r[1][1], Entry(x, y, 1, 1), mod)
    ensures MatCong(r, MatMul(x, y), Abs(mod))
    ensures forall i, j :: 0 <= i < 2 && 0 <= j < 2 ==> Abs(r[i][j]) < Abs(mod)
    ensures mod > 0 ==> Reduced(r, mod)
  {
    forall i, j | 0 <= i < 2 && 0 <= j < 2
      ensures CellHolds(r[i][j], MatMul(x, y)[i][j], mod)
    {
      assert MatMul(x, y)[i][j] == Entry(x, y, i, j);
    }
  }

  // ---------------------------------------------------------------------------
  // matrixPower

  /** One pass of the binary powering loop keeps `res * base^p` congruent to the target. */
  lemma PowerStep(res: Mat, base: Mat, q: nat, res': Mat, base': Mat, target: Mat, m: int)
    requires q > 0 && MatCong(MatMul(res, MatPow(base, q)), target, m)
    requires MatCong(res', if q % 2 == 1 then MatMul(res, base) else res, m)
    requires MatCong(base', MatMul(base, base), m)
    ensures MatCong(MatMul(res', MatPow(base', q / 2)), target, m)
  {
    var half := q / 2;
    MatPowCong(base', MatMul(base, base), half, m);
    MatPowSquare(base, half);
    var rest := MatPow(base, 2 * half);
    var cur := if q % 2 == 1 then MatMul(res, base) else res;
    MatMulCong(res', cur, MatPow(base', half), rest, m);
    if q % 2 == 1 {
      MatMulAssoc(res, base, rest);
      assert MatMul(base, rest) == MatPow(base, q);
    }
    MatCongTrans(MatMul(res', MatPow(base', half)), MatMul(cur, rest), target, m);
  }

  /** `matrixPower(A, p, mod)`: square-and-multiply over `multiply`. For `p <= 0` the loop
      never runs and the unreduced identity comes back; for `p >= 1` the result is
      congruent to `A^p` entrywise and, for a positive modulus, reduced into `[0, mod)`. */
  method MatrixPower(x: Mat, p: int, mod: int) returns (res: Mat)
    requires p > 0 ==> mod != 0
    ensures p <= 0 ==> res == Identity()
    ensures p >= 1 ==> MatCong(res, MatPow(x, p), Abs(mod))
    ensures p >= 1 && mod > 0 ==> Reduced(res, mod)
  {
    res := Identity();
    var base: Mat := [[x[0][0], x[0][1]], [x[1][0], x[1][1]]];
    MatExt(base, x);
    var q := p;
    ghost var multiplied := false;
    if p >= 1 {
      MatMulIdentity(MatPow(x, p));
      MatCongRefl(MatPow(x, p), Abs(mod));
    }
    while q > 0
      invariant p <= 0 ==> q == p && res == Identity()
      invariant p >= 1 ==> 0 <= q && MatCong(MatMul(res, MatPow(base, q)), MatPow(x, p), Abs(mod))
      invariant p >= 1 ==> multiplied || q >= 1
      invariant multiplied && mod > 0 ==> Reduced(res, mod)
      invariant !multiplied ==> res == Identity()
      decreases q
    {
      JsNonNeg(q, 2);
      var res' := res;
      if JsMod(q, 2) == 1 {
        res' := Multiply(res, base, mod);
        multiplied := true;
      } else {
        MatCongRefl(res, Abs(mod));
      }
      var base' := Multiply(base, base, mod);
      PowerStep(res, base, q, res', base', MatPow(x, p), Abs(mod));
      res, base := res', base';
      q := JsDiv(q, 2);
    }
    if p >= 1 {
      MatMulIdentity(res);
    }
  }

  // ---------------------------------------------------------------------------
  // The sequence S_n

  /** `S_0 = 2`, `S_1 = 2a`, `S_k = 2a S_{k-1} + (b - a^2) S_{k-2}`. */
  function S(a: int, b: int, n: nat): int
  {
    if n == 0 then 2 else if n == 1 then 2 * a else 2 * a * S(a, b, n - 1) + (b - a * a) * S(a, b, n - 2)
  }

  /** `(a + sqrt b)^n` as `P + Q sqrt b`, computed in `Z[sqrt b]`. */
  function SurdPow(a: int, b: int, n: nat): (int, int)
  {
    if n == 0 then (1, 0)
    else
      var pq := SurdPow(a, b, n - 1);
      (a * pq.0 + b * pq.1, pq.0 + a * pq.1)
  }

  /** `(a - sqrt b)^n` as `P + Q sqrt b`, computed in `Z[sqrt b]`. */
  function ConjPow(a: int, b: int, n: nat): (int, int)
  {
    if n == 0 then (1, 0)
    else
      var pq := ConjPow(a, b, n - 1);
      (a * pq.0 - b * pq.1, a * pq.1 - pq.0)
  }

  /** The conjugate power mirrors the power: the same rational part, the opposite surd part. */
  lemma {:induction false} ConjugateIsMirror(a: int, b: int, n: nat)
    ensures ConjPow(a, b, n) == (SurdPow(a, b, n).0, -SurdPow(a, b, n).1)
  {
    if n > 0 {
      ConjugateIsMirror(a, b, n - 1);
      var p, q := SurdPow(a, b, n - 1).0, SurdPow(a, b, n - 1).1;
      MirrorStep(a, b, p, q);
    }
  }

  /** Multiplying the mirrored pair `(p, -q)` by `a - sqrt b` mirrors the product by `a + sqrt b`. */
  lemma MirrorStep(a: int, b: int, p: int, q: int)
    ensures a * p - b * -q == a * p + b * q
    ensures a * -q - p == -(p + a * q)
  {
  }

  /** The recurrence is twice the rational part of `(a + sqrt b)^n`. */
  lemma {:induction false} RecurrenceIsConjugateSum(a: int, b: int, n: nat)
    ensures S(a, b, n) == 2 * SurdPow(a, b, n).0
  {
    if n >= 2 {
      RecurrenceIsConjugateSum(a, b, n - 1);
      RecurrenceIsConjugateSum(a, b, n - 2);
      var p0, q0 := SurdPow(a, b, n - 2).0, SurdPow(a, b, n - 2).1;
      var p1, q1 := SurdPow(a, b, n - 1).0, SurdPow(a, b, n - 1).1;
      var s1, s0, c := S(a, b, n - 1), S(a, b, n - 2), b - a * a;
      assert S(a, b, n) == 2 * a * s1 + c * s0;
      assert SurdPow(a, b, n).0 == a * p1 + b * q1;
      assert p1 == a * p0 + b * q0 && q1 == p0 + a * q0;
      SurdStep(a, b, p0, q0, p1, q1);
      Doubled(a, c, p1, p0, s1, s0);
    }
  }

  lemma Doubled(a: int, c: int, p1: int, p0: int, s1: int, s0: int)
    requires s1 == 2 * p1 && s0 == 2 * p0
    ensures 2 * a * s1 + c * s0 == 2 * (2 * a * p1 + c * p0)
  {
  }

  /** `S_n == (a + sqrt b)^n + (a - sqrt b)^n`: the rational parts of the two powers add up
      to `S_n` and their surd parts cancel. */
  lemma {:induction false} ConjugateSum(a: int, b: int, n: nat)
    ensures SurdPow(a, b, n).0 + ConjPow(a, b, n).0 == S(a, b, n)
    ensures SurdPow(a, b, n).1 + ConjPow(a, b, n).1 == 0
  {
    RecurrenceIsConjugateSum(a, b, n);
    ConjugateIsMirror(a, b, n);
  }

  /** Two steps of multiplication by `a + sqrt b` satisfy the characteristic equation
      `x^2 = 2a x + (b - a^2)` of the recurrence. */
  lemma SurdStep(a: int, b: int, p0: int, q0: int, p1: int, q1: int)
    requires p1 == a * p0 + b * q0 && q1 == p0 + a * q0
    ensures a * p1 + b * q1 == 2 * a * p1 + (b - a * a) * p0
  {
    assert b * q1 == b * p0 + a * (b * q0);
    assert b * q0 == p1 - a * p0;
    assert a * (b * q0) == a * p1 - a * (a * p0);
  }

  /** The recurrence matrix `[[2a, b - a^2], [1, 0]]`. */
  function Step(a: int, b: int): Mat
  {
    [[2 * a, b - a * a], [1, 0]]
  }

  /** `Step^k` maps `(S_1, S_0)` to `(S_{k+1}, S_k)`. */
  lemma {:induction false} StepPower(a: int, b: int, k: nat)
    ensures MatPow(Step(a, b), k)[0][0] * S(a, b, 1) + MatPow(Step(a, b), k)[0][1] * S(a, b, 0) == S(a, b, k + 1)
    ensures MatPow(Step(a, b), k)[1][0] * S(a, b, 1) + MatPow(Step(a, b), k)[1][1] * S(a, b, 0) == S(a, b, k)
  {
    if k > 0 {
      StepPower(a, b, k - 1);
      var t := MatPow(Step(a, b), k - 1);
      var s1, s0 := S(a, b, 1), S(a, b, 0);
      StepRow(a, b, t[0][0], t[0][1], t[1][0], t[1][1], s1, s0);
    }
  }

  lemma StepRow(a: int, b: int, t00: int, t01: int, t10: int, t11: int, s1: int, s0: int)
    ensures (2 * a * t00 + (b - a * a) * t10) * s1 + (2 * a * t01 + (b - a * a) * t11) * s0
         == 2 * a * (t00 * s1 + t01 * s0) + (b - a * a) * (t10 * s1 + t11 * s0)
  {
  }

  /** The exact path: `sPrev2`, `sPrev1` and `currentS` rotated for `i = 2..n`. */
  method ExactValue(a: int, b: int, n: int) returns (s: int)
    requires n >= 0
    ensures s == S(a, b, n)
  {
    var sPrev2 := 2;
    var sPrev1 := 2 * a;
    if n == 0 {
      s := sPrev2;
    } else if n == 1 {
      s := sPrev1;
    } else {
      var currentS := 0;
      var coeff := b - a * a;
      var i := 2;
      while i <= n
        invariant 2 <= i <= n + 1
        invariant sPrev2 == S(a, b, i - 2) && sPrev1 == S(a, b, i - 1)
        invariant i > 2 ==> currentS == S(a, b, i - 1)
      {
        currentS := 2 * a * sPrev1 + coeff * sPrev2;
        sPrev2 := sPrev1;
        sPrev1 := currentS;
        i := i + 1;
      }
      s := currentS;
    }
  }

  // ---------------------------------------------------------------------------
  // handleSolve

  /** The result card: the exact `S_n` when it is computed (`None` keeps the "too large
      to display" text) and the remainder modulo `c`. */
  datatype Shown = Shown(exact: Option<int>, remainder: int)

  /** The remainder for `n >= 2`: `T = Step(a, b)` with entries reduced, `Tn = T^(n-1)`,
      and `S_n` read off the first row against the reduced `S_1`, `S_0`. */
  method MatrixRemainder(a: int, b: int, n: int, c: int) returns (rem: int)
    requires n >= 2 && c != 0
    ensures Cong(rem, S(a, b, n), Abs(c)) && Abs(rem) < Abs(c)
    ensures c >= 1 ==> rem == S(a, b, n) % c
  {
    var t: Mat := [[JsMod(2 * a, c), JsMod(b - a * a, c)], [1, 0]];
    var tn := MatrixPower(t, n - 1, c);
    var s1 := JsMod(2 * a, c);
    var s0 := JsMod(2, c);
    var sn := JsMod(tn[0][0] * s1 + tn[0][1] * s0, c);
    rem := JsMod(sn + c, c);
    RemainderFacts(a, b, n, c, t, tn, s1, s0, sn, rem);
  }

  lemma RemainderFacts(a: int, b: int, n: int, c: int, t: Mat, tn: Mat, s1: int, s0: int, sn: int, rem: int)
    requires n >= 2 && c != 0
    requires t == [[JsMod(2 * a, c), JsMod(b - a * a, c)], [1, 0]]
    requires MatCong(tn, MatPow(t, n - 1), Abs(c))
    requires s1 == JsMod(2 * a, c) && s0 == JsMod(2, c)
    requires sn == JsMod(tn[0][0] * s1 + tn[0][1] * s0, c) && rem == JsMod(sn + c, c)
    ensures Cong(rem, S(a, b, n), Abs(c))
    ensures c >= 1 ==> rem == S(a, b, n) % c
  {
    var m := Abs(c);
    var v := tn[0][0] * s1 + tn[0][1] * s0;
    assert Cong(v, S(a, b, n), m) by {
      FirstRowCong(a, b, n, c, t, tn, s1, s0);
    }
    assert Cong(sn, S(a, b, n), m) by {
      JsModCong(v, c);
      CongTrans(sn, v, S(a, b, n), m);
    }
    assert Cong(rem, S(a, b, n), m) by {
      JsModCong(sn + c, c);
      if c > 0 {
        MultipleIsCong(sn + c, sn, 1, m);
      } else {
        MultipleIsCong(sn + c, sn, -1, m);
      }
      CongTrans(sn + c, sn, S(a, b, n), m);
      CongTrans(rem, sn + c, S(a, b, n), m);
    }
    if c >= 1 {
      CongIffSameMod(rem, S(a, b, n), c);
      ModUnique(rem, 0, rem, c);
    }
  }

  /** The first row of the reduced power applied to `(S_1, S_0)` is `S_n` modulo `|c|`. */
  lemma FirstRowCong(a: int, b: int, n: int, c: int, t: Mat, tn: Mat, s1: int, s0: int)
    requires n >= 2 && c != 0
    requires t == [[JsMod(2 * a, c), JsMod(b - a * a, c)], [1, 0]]
    requires MatCong(tn, MatPow(t, n - 1), Abs(c))
    requires s1 == JsMod(2 * a, c) && s0 == JsMod(2, c)
    ensures Cong(tn[0][0] * s1 + tn[0][1] * s0, S(a, b, n), Abs(c))
  {
    var m := Abs(c);
    var st := Step(a, b);
    assert MatCong(t, st, m) by {
      JsModCong(2 * a, c);
      JsModCong(b - a * a, c);
      CongRefl(1, m);
      CongRefl(0, m);
    }
    MatPowCong(t, st, n - 1, m);
    MatCongTrans(tn, MatPow(t, n - 1), MatPow(st, n - 1), m);
    var p := MatPow(st, n - 1);
    StepPower(a, b, n - 1);
    JsModCong(2, c);
    CongMul(tn[0][0], p[0][0], s1, S(a, b, 1), m);
    CongMul(tn[0][1], p[0][1], s0, S(a, b, 0), m);
    CongAdd(tn[0][0] * s1, p[0][0] * S(a, b, 1), tn[0][1] * s0, p[0][1] * S(a, b, 0), m);
  }

  /** `handleSolve` of the conjugate-power screen. An input that `BigInt` cannot parse,
      a negative `n` or a zero `c` ends in the error alert. Otherwise the remainder is
      congruent to `S_n` modulo `|c|` (for `n >= 2` and `c >= 1` it is `S_n mod c`), and
      the exact value is shown exactly when `n <= 5000`, where it is `S_n` and agrees with
      the remainder. */
  method Solve(a: Option<int>, b: Option<int>, n: Option<int>, c: Option<int>) returns (out: Option<Shown>)
    ensures out.Some? <==> a.Some? && b.Some? && n.Some? && c.Some? && n.value >= 0 && c.value != 0
    ensures out.Some? ==>
      var sn := S(a.value, b.value, n.value);
      Cong(out.value.remainder, sn, Abs(c.value)) &&
      (n.value == 0 ==> out.value.remainder == JsMod(2, c.value)) &&
      (n.value == 1 ==> out.value.remainder == JsMod(2 * a.value, c.value)) &&
      (n.value >= 2 && c.value >= 1 ==> out.value.remainder == sn % c.value) &&
      (out.value.exact.Some? <==> n.value <= 5000) &&
      (out.value.exact.Some? ==> out.value.exact.value == sn && Cong(out.value.remainder, out.value.exact.value, Abs(c.value)))
  {
    if a.None? || b.None? || n.None? || c.None? {
      return None;
    }
    var bigA, bigB, bigN, bigC := a.value, b.value, n.value, c.value;
    if bigN < 0 {
      return None;
    }
    if bigC == 0 {
      // every path starts with a `% bigC`
      return None;
    }
    var remainder;
    if bigN == 0 {
      remainder := JsMod(2, bigC);
      JsModCong(2, bigC);
    } else if bigN == 1 {
      remainder := JsMod(2 * bigA, bigC);
      JsModCong(2 * bigA, bigC);
    } else {
      remainder := MatrixRemainder(bigA, bigB, bigN, bigC);
    }
    var exact := None;
    if bigN <= 5000 {
      var s := ExactValue(bigA, bigB, bigN);
      exact := Some(s);
    }
    return Some(Shown(exact, remainder));
  }

  /** As written, `n = 1` reduces `2a` with the truncating `%` alone, without the shift by `c`
      that the `n >= 2` branch applies: for a negative `a` whose `2a` is not a multiple of a
      positive `c`, the shown remainder is negative and is not the residue of `S_1`. */
  lemma FirstRemainderNegative(a: int, b: int, c: int)
    requires c >= 1 && a < 0 && (2 * a) % c != 0
    ensures JsMod(2 * a, c) < 0
    ensures JsMod(2 * a, c) != S(a, b, 1) % c
  {
    JsModCong(2 * a, c);
    if JsMod(2 * a, c) == 0 {
      CongIffSameMod(0, 2 * a, c);
    }
  }

  /** `a = -3, b = 7, n = 1, c = 5`: the screen shows `-1` where the residue is `4`. */
  lemma FirstRemainderExample()
    ensures JsMod(2 * -3, 5) == -1 && S(-3, 7, 1) % 5 == 4
  {
  }

  /** The truncated remainder shifted by `c` and reduced again stays congruent to `x`. */
  lemma ShiftCong(x: int, c: int)
    requires c != 0
    ensures Cong(JsMod(JsMod(x, c) + c, c), x, Abs(c))
  {
    var r := JsMod(x, c);
    JsModCong(r + c, c);
    MultipleIsCong(r + c, r, if c > 0 then 1 else -1, Abs(c));
    JsModCong(x, c);
    CongTrans(JsMod(r + c, c), r + c, r, Abs(c));
    CongTrans(JsMod(r + c, c), r, x, Abs(c));
  }

  /** The remainder as the `n >= 2` branch computes it, applied to every `n`: each branch is
      shifted by `c` and reduced again, so a positive `c` always gives the residue of `S_n`. */
  method IntendedRemainder(a: int, b: int, n: int, c: int) returns (rem: int)
    requires n >= 0 && c != 0
    ensures Cong(rem, S(a, b, n), Abs(c)) && Abs(rem) < Abs(c)
    ensures c >= 1 ==> rem == S(a, b, n) % c
  {
    if n <= 1 {
      var x := if n == 0 then 2 else 2 * a;
      rem := JsMod(JsMod(x, c) + c, c);
      ShiftCong(x, c);
      if c >= 1 {
        JsModShift(x, c);
      }
    } else {
      rem := MatrixRemainder(a, b, n, c);
    }
  }
}
