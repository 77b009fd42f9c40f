/** The Chinese-remainder screen: the least common multiple of the moduli and the
    search for the smallest or largest `k`-digit member of the solution class. */
module CrtView {
  import opened Arith
  import opened Js
  import opened MathUtils

  // ---------------------------------------------------------------------------
  // gcd and lcm on bigints

  /** Every common divisor of `a` and `b` is one of `b` and `a % b`, and back. */
  lemma GcdStep(a: int, b: int)
    requires b != 0
    ensures forall d :: Divides(d, a) && Divides(d, b) <==> Divides(d, b) && Divides(d, JsMod(a, b))
  {
    var q, r := JsDiv(a, b), JsMod(a, b);
    JsDivMod(a, b);
    assert r == a - q * b;
    forall d ensures Divides(d, a) && Divides(d, b) <==> Divides(d, b) && Divides(d, r) {
      CommonDivisorsStep(a, b, q, d);
    }
  }

  lemma DividesAbs(d: int, a: int)
    requires Divides(d, a)
    ensures Divides(d, Abs(a))
  {
    DividesLinear(d, a, a, -1, 0);
  }

  lemma AbsDivides(a: int)
    requires a != 0
    ensures Divides(Abs(a), a)
  {
    if a < 0 {
      MultipleMod(-1, Abs(a));
    }
  }

  /** `gcd(a, b)`, Euclid's algorithm on bigints with the truncating remainder. Its
      magnitude is the greatest common divisor: it is zero only for `gcd(0, 0)`, divides
      both arguments, and every common divisor divides it. */
  function Gcd(a: int, b: int): (r: int)
    ensures r == 0 <==> a == 0 && b == 0
    ensures a >= 0 && b >= 0 ==> r >= 0
    ensures r != 0 ==> Divides(Abs(r), a) && Divides(Abs(r), b)
    ensures forall d :: Divides(d, a) && Divides(d, b) ==> Divides(d, Abs(r))
    decreases Abs(b)
  {
    if b == 0 then
      assert forall d :: Divides(d, a) ==> Divides(d, Abs(a)) by {
        forall d | Divides(d, a) ensures Divides(d, Abs(a)) {
          DividesAbs(d, a);
        }
      }
      if a != 0 then AbsDivides(a); a else a
    else
      GcdStep(a, b);
      Gcd(b, JsMod(a, b))
  }

  /** The least positive common multiple of `a` and `b`. */
  ghost predicate IsLcm2(l: int, a: int, b: int)
  {
    l >= 1 && Divides(a, l) && Divides(b, l) &&
    forall m :: Divides(a, m) && Divides(b, m) ==> Divides(l, m)
  }

  /** With the Bezout identity for `g`, every common multiple of `a` and `b` is a
      multiple of `a * b / g`. */
  lemma LcmLeast(a: int, b: int, g: int, x: int, y: int, l: int, m: int)
    requires a >= 1 && b >= 1 && g >= 1 && g == a * x + b * y
    requires l * g == a * b && Divides(a, m) && Divides(b, m)
    ensures Divides(l, m)
  {
    var s, t := m / a, m / b;
    assert m == a * s && m == b * t;
    var k := t * x + s * y;
    assert m * g == m * (a * x) + m * (b * y);
    SwapFactors(b, t, a, x);
    SwapFactors(a, s, b, y);
    assert m * g == (a * b) * k;
    SwapFactors(l, g, k, 1);
    Cancel(m, l * k, g);
    assert l >= 1 by {
      if l <= 0 {
        MulMonotone(-l, g, -l, g);
      }
    }
    MultipleMod(k, l);
  }

  lemma SwapFactors(p: int, q: int, u: int, v: int)
    ensures (p * q) * (u * v) == (p * u) * (q * v)
  {
  }

  lemma Cancel(x: int, y: int, g: int)
    requires g >= 1 && x * g == y * g
    ensures x == y
  {
    assert (x - y) * g == 0;
  }

  /** The quotient of `a * b` by a positive common divisor `g`. */
  lemma QuotientByCommonDivisor(a: int, b: int, g: int)
    requires a >= 1 && b >= 1 && Divides(g, a) && Divides(g, b)
    ensures (a * b) / g * g == a * b
    ensures (a * b) / g == (a / g) * b == a * (b / g)
    ensures (a * b) / g >= 1
  {
    var a1, b1 := a / g, b / g;
    assert a == a1 * g && b == b1 * g;
    assert a * b == (a1 * b) * g;
    ModUnique(a * b, a1 * b, 0, g);
    assert a1 * b == a * b1;
    assert a1 >= 1 by {
      if a1 <= 0 {
        MulMonotone(-a1, g, -a1, g);
      }
    }
    MulAtLeast(a1, b);
  }

  lemma QuotientAtLeastOne(x: int, m: int)
    requires x >= m > 0
    ensures x / m >= 1
  {
    var q, r := x / m, x % m;
    assert x == q * m + r && r < m;
    if q <= 0 {
      MulMonotone(0, 0, -q, m);
      assert false;
    }
  }

  lemma AbsMul(a: int, b: int)
    ensures Abs(a * b) == Abs(a) * Abs(b)
  {
    if a < 0 && b >= 0 {
      assert a * b == -(Abs(a) * b);
    } else if a >= 0 && b < 0 {
      assert a * b == -(a * Abs(b));
    } else if a < 0 && b < 0 {
      assert a * b == Abs(a) * Abs(b);
    }
  }

  /** Dividing `a * b` by a divisor of `a` leaves a non-zero quotient. */
  lemma QuotientNonZero(a: int, b: int, g: int)
    requires a != 0 && b != 0 && g != 0 && Divides(Abs(g), a)
    ensures JsDiv(a * b, g) != 0
  {
    var ab := Abs(a * b);
    DividesAbs(Abs(g), a);
    DividesLe(Abs(g), Abs(a));
    AbsMul(a, b);
    MulAtLeast(Abs(b), Abs(a));
    assert Abs(b) * Abs(a) == ab;
    QuotientAtLeastOne(ab, Abs(g));
  }

  /** `lcm(a, b) = a * b / gcd(a, b)`: throws only when both are zero (the gcd is zero);
      for non-zero arguments it is non-zero, and for positive ones it is the least
      positive common multiple. */
  function Lcm(a: int, b: int): (r: Result<int>)
    ensures r.Thrown? <==> a == 0 && b == 0
    ensures a != 0 && b != 0 ==> r.Ok? && r.value != 0
    ensures a >= 1 && b >= 1 ==> r.Ok? && IsLcm2(r.value, a, b)
  {
    var g := Gcd(a, b);
    if g == 0 then Thrown(DivisionByZero)
    else
      LcmFacts(a, b);
      Ok(JsDiv(a * b, g))
  }

  lemma LcmFacts(a: int, b: int)
    requires Gcd(a, b) != 0
    ensures a != 0 && b != 0 ==> JsDiv(a * b, Gcd(a, b)) != 0
    ensures a >= 1 && b >= 1 ==> IsLcm2(JsDiv(a * b, Gcd(a, b)), a, b)
  {
    if a != 0 && b != 0 {
      QuotientNonZero(a, b, Gcd(a, b));
    }
    if a >= 1 && b >= 1 {
      LcmOfPositive(a, b, Gcd(a, b), JsDiv(a * b, Gcd(a, b)));
    }
  }

  lemma LcmOfPositive(a: int, b: int, g: int, l: int)
    requires a >= 1 && b >= 1 && g == Gcd(a, b) && l == JsDiv(a * b, g)
    ensures IsLcm2(l, a, b)
  {
    var g0, x, y := Bezout(a, b);
    DividesAntisym(g, g0);
    QuotientByCommonDivisor(a, b, g);
    assert l == (a * b) / g;
    DividesMultiple(a, b / g);
    assert a * (b / g) == (b / g) * a;
    DividesMultiple(b, a / g);
    forall m | Divides(a, m) && Divides(b, m) ensures Divides(l, m) {
      LcmLeast(a, b, g, x, y, l, m);
    }
  }

  // ---------------------------------------------------------------------------
  // The lcm fold over the moduli

  /** `m` is a multiple of every modulus. */
  predicate CommonMultiple(m: int, ms: seq<int>)
  {
    forall i :: 0 <= i < |ms| ==> Divides(ms[i], m)
  }

  /** `l` is the least positive common multiple of the moduli. */
  ghost predicate IsLcm(l: int, ms: seq<int>)
  {
    l >= 1 && CommonMultiple(l, ms) && forall m :: CommonMultiple(m, ms) ==> Divides(l, m)
  }

  lemma LcmFoldStep(l: int, ms: seq<int>, x: int, l': int)
    requires IsLcm(l, ms) && IsLcm2(l', l, x)
    ensures IsLcm(l', ms + [x])
  {
    forall i | 0 <= i < |ms + [x]| ensures Divides((ms + [x])[i], l') {
      if i < |ms| {
        DividesTrans(ms[i], l, l');
      }
    }
    forall m | CommonMultiple(m, ms + [x]) ensures Divides(l', m) {
      assert CommonMultiple(m, ms) by {
        forall i | 0 <= i < |ms| ensures Divides(ms[i], m) {
          assert (ms + [x])[i] == ms[i];
        }
      }
      assert (ms + [x])[|ms|] == x;
    }
  }

  /** The `currentLcm` fold: `lcm` of the moduli from left to right. Non-zero moduli never
      make it throw and give a non-zero value; positive moduli give their least common
      multiple. */
  method LcmFold(moduli: seq<int>) returns (l: int)
    requires |moduli| >= 1 && forall i :: 0 <= i < |moduli| ==> moduli[i] != 0
    ensures l != 0
    ensures (forall i :: 0 <= i < |moduli| ==> moduli[i] > 0) ==> IsLcm(l, moduli)
  {
    ghost var positive := forall i :: 0 <= i < |moduli| ==> moduli[i] > 0;
    l := moduli[0];
    assert moduli[..1] == [moduli[0]];
    var i := 1;
    while i < |moduli|
      invariant 1 <= i <= |moduli| && l != 0
      invariant positive ==> IsLcm(l, moduli[..i])
    {
      var next := Lcm(l, moduli[i]);
      if positive {
        LcmFoldStep(l, moduli[..i], moduli[i], next.value);
        assert moduli[..i + 1] == moduli[..i] + [moduli[i]];
      }
      l := next.value;
      i := i + 1;
    }
    assert moduli[..i] == moduli;
  }

  // ---------------------------------------------------------------------------
  // The digit-range search

  datatype Mode = Min | Max

  /** The message shown: a number, or "not found in this digit range". */
  datatype Answer = Found(value: int) | NotFound

  /** The numbers a search looks among: the residue class of `sol` modulo `l`, or the
      solutions of a system of congruences `x = rs[i] (mod ms[i])`. */
  datatype Domain = Class(sol: int, l: int) | System(rs: seq<int>, ms: seq<int>)

  ghost predicate Member(d: Domain, w: int)
  {
    match d
    case Class(sol, l) => Cong(w, sol, l)
    case System(rs, ms) => |rs| == |ms| && Solves(w, rs, ms)
  }

  /** What the search promises about its answer: "not found" exactly when no member of
      `d` lies in `[lower, upper]`; otherwise a member in range, the least (MIN) or the
      greatest (MAX) one. */
  ghost predicate SearchCorrect(a: Answer, mode: Mode, lower: int, upper: int, d: Domain)
  {
    (a.NotFound? <==> forall w :: lower <= w <= upper ==> !Member(d, w)) &&
    (a.Found? ==>
      lower <= a.value <= upper && Member(d, a.value) &&
      (mode == Min ==> forall w :: lower <= w < a.value ==> !Member(d, w)) &&
      (mode == Max ==> forall w :: a.value < w <= upper ==> !Member(d, w)))
  }

  /** A member of the class with no member below it down to `lower` is the least one. */
  lemma LeastMember(c: int, l: int, lower: int, cur: int)
    requires l > 0 && Cong(cur, c, l) && cur >= lower && cur - l < lower
    ensures forall w :: Cong(w, c, l) && w >= lower ==> w >= cur
  {
    forall w | Cong(w, c, l) && w >= lower ensures w >= cur {
      CongSym(cur, c, l);
      CongTrans(w, c, cur, l);
      CongIsMultiple(w, cur, l);
      var j := (w - cur) / l;
      if j <= -1 {
        MulMonotone(-j, l, -j, l);
        MulAtLeast(-j, l);
      }
    }
  }

  /** A member of the class with no member above it up to `upper` is the greatest one. */
  lemma GreatestMember(c: int, l: int, upper: int, cur: int)
    requires l > 0 && Cong(cur, c, l) && cur <= upper && cur + l > upper
    ensures forall w :: Cong(w, c, l) && w <= upper ==> w <= cur
  {
    forall w | Cong(w, c, l) && w <= upper ensures w <= cur {
      CongSym(cur, c, l);
      CongTrans(w, c, cur, l);
      CongIsMultiple(w, cur, l);
      var j := (w - cur) / l;
      if j >= 1 {
        MulAtLeast(j, l);
      }
    }
  }

  /** `k = (diff + L - 1) / L` is the ceiling of `diff / L`. */
  lemma CeilStep(diff: int, l: int)
    requires diff > 0 && l > 0
    ensures var k := (diff + l - 1) / l; k * l >= diff && (k - 1) * l < diff
  {
    var k, r := (diff + l - 1) / l, (diff + l - 1) % l;
    assert diff + l - 1 == k * l + r;
    assert (k - 1) * l == k * l - l;
  }

  /** `k = diff / L` is the floor of `diff / L`. */
  lemma FloorStep(diff: int, l: int)
    requires diff >= 0 && l > 0
    ensures var k := diff / l; k * l <= diff && (k + 1) * l > diff
  {
    var k, r := diff / l, diff % l;
    assert diff == k * l + r;
    assert (k + 1) * l == k * l + l;
  }

  /** The answer given once the least member at or above `lower` (MIN) is known. */
  lemma MinAnswer(sol: int, l: int, lower: int, upper: int, cur: int)
    requires l > 0 && Cong(cur, sol, l) && cur >= lower && cur - l < lower
    ensures SearchCorrect(if cur > upper then NotFound else Found(cur), Min, lower, upper, Class(sol, l))
  {
    LeastMember(sol, l, lower, cur);
    if cur > upper {
      forall w | lower <= w <= upper ensures !Member(Class(sol, l), w) {
      }
    } else {
      forall w | lower <= w < cur ensures !Member(Class(sol, l), w) {
      }
      assert lower <= cur <= upper && Member(Class(sol, l), cur);
    }
  }

  /** The answer given once the greatest member at or below `upper` (MAX) is known. */
  lemma MaxAnswer(sol: int, l: int, lower: int, upper: int, cur: int)
    requires l > 0 && Cong(cur, sol, l) && cur <= upper && cur + l > upper
    ensures SearchCorrect(if cur < lower then NotFound else Found(cur), Max, lower, upper, Class(sol, l))
  {
    GreatestMember(sol, l, upper, cur);
    if cur < lower {
      forall w | lower <= w <= upper ensures !Member(Class(sol, l), w) {
      }
    } else {
      forall w | cur < w <= upper ensures !Member(Class(sol, l), w) {
      }
      assert lower <= cur <= upper && Member(Class(sol, l), cur);
    }
  }

  /** MAX with the normalised member already above `upper`: no member is in range. */
  lemma MaxNone(sol: int, l: int, lower: int, upper: int, c: int)
    requires l > 0 && 0 <= lower && 0 <= c < l && Cong(c, sol, l) && c > upper
    ensures SearchCorrect(NotFound, Max, lower, upper, Class(sol, l))
  {
    LeastMember(sol, l, 0, c);
    forall w | lower <= w <= upper ensures !Member(Class(sol, l), w) {
    }
  }

  /** `((sol % L) + L) % L` with truncating `%` is the Euclidean remainder of `sol`. */
  lemma Normalised(sol: int, l: int)
    requires l > 0
    ensures var c := JsMod(JsMod(sol, l) + l, l); 0 <= c < l && Cong(c, sol, l)
  {
    JsModShift(sol, l);
    var c := sol % l;
    ModUnique(c, 0, c, l);
    CongIffSameMod(c, sol, l);
  }

  /** Stepping by whole multiples of `L` stays in the class. */
  lemma StepInClass(c: int, sol: int, l: int, k: int)
    requires Cong(c, sol, l)
    ensures Cong(c + k * l, sol, l)
  {
    MultipleIsCong(c + k * l, c, k, l);
    CongTrans(c + k * l, c, sol, l);
  }

  /** The MIN step from a member below `lower`: `k = (diff + L - 1) / L` whole steps reach
      the least member at or above `lower`. */
  lemma MinStep(sol: int, l: int, lower: int, c: int, k: int)
    requires l > 0 && Cong(c, sol, l) && c < lower
    requires k == JsDiv(lower - c + l - 1, l)
    ensures Cong(c + k * l, sol, l) && c + k * l >= lower && c + k * l - l < lower
  {
    JsNonNeg(lower - c + l - 1, l);
    CeilStep(lower - c, l);
    StepInClass(c, sol, l, k);
  }

  /** The MAX step from a member at or below `upper`: `k = diff / L` whole steps reach
      the greatest member at or below `upper`. */
  lemma MaxStep(sol: int, l: int, upper: int, c: int, k: int)
    requires l > 0 && Cong(c, sol, l) && c <= upper
    requires k == JsDiv(upper - c, l)
    ensures Cong(c + k * l, sol, l) && c + k * l <= upper && c + k * l + l > upper
  {
    JsNonNeg(upper - c, l);
    FloorStep(upper - c, l);
    StepInClass(c, sol, l, k);
  }

  /** The digit-range search: normalise the CRT solution into `[0, L)`, then step by
      whole multiples of `L` to the first member at or above `lower` (MIN) or the last at
      or below `upper` (MAX). For positive `L` and a non-negative window start the answer
      is the one `SearchCorrect` describes for the class of `sol` modulo `L`. */
  method DigitSearch(sol: int, l: int, lower: int, upper: int, mode: Mode) returns (a: Answer)
    requires l != 0
    ensures l > 0 && lower >= 0 ==> SearchCorrect(a, mode, lower, upper, Class(sol, l))
  {
    ghost var good := l > 0 && lower >= 0;
    var current := sol;
    current := JsMod(JsMod(current, l) + l, l);
    ghost var c := current;
    assert good ==> 0 <= c < l && Cong(c, sol, l) by {
      if l > 0 {
        Normalised(sol, l);
      }
    }
    if mode == Min {
      if current < lower {
        var diff := lower - current;
        var k := JsDiv(diff + l - 1, l);
        current := current + k * l;
        assert good ==> Cong(current, sol, l) && current >= lower && current - l < lower by {
          if good {
            MinStep(sol, l, lower, c, k);
          }
        }
      }
      assert good ==> SearchCorrect(if current > upper then NotFound else Found(current), Min, lower, upper, Class(sol, l)) by {
        if good {
          MinAnswer(sol, l, lower, upper, current);
        }
      }
      if current > upper {
        a := NotFound;
      } else {
        a := Found(current);
      }
    } else {
      if current > upper {
        assert good ==> SearchCorrect(NotFound, Max, lower, upper, Class(sol, l)) by {
          if good {
            MaxNone(sol, l, lower, upper, c);
          }
        }
        a := NotFound;
      } else {
        var diff := upper - current;
        var k := JsDiv(diff, l);
        current := current + k * l;
        assert good ==> SearchCorrect(if current < lower then NotFound else Found(current), Max, lower, upper, Class(sol, l)) by {
          if good {
            MaxStep(sol, l, upper, c, k);
            MaxAnswer(sol, l, lower, upper, current);
          }
        }
        if current < lower {
          a := NotFound;
        } else {
          a := Found(current);
        }
      }
    }
  }

  // ---------------------------------------------------------------------------
  // handleSolve

  /** What the screen shows after solving: the lcm line and the result line. `None`
      means the line was not set because an exception ended the handler first. */
  datatype Display = Display(lcm: Option<int>, answer: Option<Answer>)

  /** Every input field parsed to a number (`parseInt` gives `NaN` otherwise). */
  predicate AllParsed(fields: seq<Option<int>>)
  {
    forall i :: 0 <= i < |fields| ==> fields[i].Some?
  }

  /** The parsed numbers, with `0` standing in for a field that did not parse. */
  function Values(fields: seq<Option<int>>): (r: seq<int>)
    ensures |r| == |fields|
    ensures forall i :: 0 <= i < |fields| ==> r[i] == if fields[i].Some? then fields[i].value else 0
  {
    if fields == [] then [] else [if fields[0].Some? then fields[0].value else 0] + Values(fields[1..])
  }

  /** `parseInt(digits) || 1`: a digit count that is `NaN` or `0` falls back to one digit. */
  function DigitCount(digits: Option<int>): (k: int)
    ensures k != 0
    ensures digits.Some? && digits.value != 0 ==> k == digits.value
    ensures digits.None? || digits.value == 0 ==> k == 1
    ensures k >= 1 <==> digits.None? || digits.value >= 0
  {
    match digits
    case None => 1
    case Some(v) => if v == 0 then 1 else v
  }

  /** `w` satisfies every congruence `w = r_i (mod m_i)` of the system. */
  predicate Solves(w: int, rs: seq<int>, ms: seq<int>)
    requires |rs| == |ms|
  {
    forall i :: 0 <= i < |ms| ==> Cong(w, rs[i], ms[i])
  }

  /** With positive moduli, the class of one solution modulo the lcm is the whole
      solution set of the system. */
  lemma ClassIsSolutionSet(sol: int, l: int, rs: seq<int>, ms: seq<int>)
    requires |rs| == |ms| && Solves(sol, rs, ms) && IsLcm(l, ms)
    ensures forall w :: Cong(w, sol, l) <==> Solves(w, rs, ms)
  {
    forall w ensures Cong(w, sol, l) <==> Solves(w, rs, ms) {
      if Cong(w, sol, l) {
        forall i | 0 <= i < |ms| ensures Cong(w, rs[i], ms[i]) {
          CongDivisor(w, sol, l, ms[i]);
          CongTrans(w, sol, rs[i], ms[i]);
        }
      }
      if Solves(w, rs, ms) {
        assert CommonMultiple(w - sol, ms) by {
          forall i | 0 <= i < |ms| ensures Divides(ms[i], w - sol) {
            CongSym(sol, rs[i], ms[i]);
            CongTrans(w, rs[i], sol, ms[i]);
          }
        }
      }
    }
  }

  lemma SearchSameClass(a: Answer, mode: Mode, lower: int, upper: int, f: Domain, g: Domain)
    requires forall w :: Member(f, w) <==> Member(g, w)
    requires SearchCorrect(a, mode, lower, upper, f)
    ensures SearchCorrect(a, mode, lower, upper, g)
  {
  }

  /** Every field parsed, and the moduli are positive and pairwise coprime. */
  ghost predicate CoprimeSystem(moduli: seq<Option<int>>, remainders: seq<Option<int>>)
  {
    AllParsed(moduli) && AllParsed(remainders) &&
    (forall i :: 0 <= i < |moduli| ==> Values(moduli)[i] > 0) && PairwiseCoprime(Values(moduli))
  }

  lemma PowAtLeastOne(b: int, e: nat)
    requires b >= 1
    ensures Pow(b, e) >= 1
  {
    if e > 0 {
      PowAtLeastOne(b, e - 1);
      MulAtLeast(b, Pow(b, e - 1));
    }
  }

  /** `handleSolve` of the CRT screen. A modulus or remainder that does not parse, or a
      zero modulus, makes `solveCRT` throw before anything is shown. Otherwise the lcm
      line is set (the "no solution" branch is unreachable because `solveCRT` never
      returns `null`); a digit count below one makes `10n ** BigInt(k - 1)` throw before
      the result line is set. For positive pairwise-coprime moduli the lcm shown is the
      least common multiple of the moduli, and the result is the least (MIN) or greatest
      (MAX) `k`-digit solution of the system, or "not found" exactly when no `k`-digit
      number solves it. */
  method Solve(moduli: seq<Option<int>>, remainders: seq<Option<int>>, digits: Option<int>, mode: Mode)
    returns (out: Display)
    requires |moduli| >= 1 && |remainders| == |moduli|
    ensures !AllParsed(moduli) || !AllParsed(remainders) ==> out == Display(None, None)
    ensures (exists i :: 0 <= i < |moduli| && Values(moduli)[i] == 0) ==> out == Display(None, None)
    ensures out.lcm.None? ==> out.answer.None?
    ensures AllParsed(moduli) && AllParsed(remainders) && DigitCount(digits) < 1 ==> out.answer.None?
    ensures (AllParsed(moduli) && AllParsed(remainders) &&
             (forall i :: 0 <= i < |moduli| ==> Values(moduli)[i] > 0) && !PairwiseCoprime(Values(moduli))) ==>
      out == Display(None, None)
    ensures CoprimeSystem(moduli, remainders) ==>
        out.lcm.Some? && IsLcm(out.lcm.value, Values(moduli)) &&
        (DigitCount(digits) >= 1 ==>
          out.answer.Some? &&
          SearchCorrect(out.answer.value, mode, Pow(10, DigitCount(digits) - 1), Pow(10, DigitCount(digits)) - 1,
            System(Values(remainders), Values(moduli))))
  {
    if !AllParsed(moduli) || !AllParsed(remainders) {
      // BigInt(NaN) throws inside solveCRT
      return Display(None, None);
    }
    out := SolveParsed(Values(moduli), Values(remainders), digits, mode);
  }

  /** `handleSolve` once every field has parsed to a number. */
  method SolveParsed(ms: seq<int>, rs: seq<int>, digits: Option<int>, mode: Mode) returns (out: Display)
    requires |ms| >= 1 && |rs| == |ms|
    ensures (exists i :: 0 <= i < |ms| && ms[i] == 0) ==> out == Display(None, None)
    ensures out.lcm.None? ==> out.answer.None?
    ensures DigitCount(digits) < 1 ==> out.answer.None?
    ensures (forall i :: 0 <= i < |ms| ==> ms[i] > 0) && !PairwiseCoprime(ms) ==> out == Display(None, None)
    ensures (forall i :: 0 <= i < |ms| ==> ms[i] > 0) && PairwiseCoprime(ms) ==>
        out.lcm.Some? && IsLcm(out.lcm.value, ms) &&
        (DigitCount(digits) >= 1 ==>
          out.answer.Some? &&
          SearchCorrect(out.answer.value, mode, Pow(10, DigitCount(digits) - 1), Pow(10, DigitCount(digits)) - 1,
            System(rs, ms)))
  {
    ghost var coprime := (forall i :: 0 <= i < |ms| ==> ms[i] > 0) && PairwiseCoprime(ms);
    var sol := SolveCRT(rs, ms);
    if sol.Thrown? {
      return Display(None, None);
    }
    if sol.value.None? {
      assert false;
    }
    var x := sol.value.value;
    var l := LcmFold(ms);
    var k := DigitCount(digits);
    if k < 1 {
      // BigInt(k - 1) is negative and `10n ** ` it throws a RangeError
      return Display(Some(l), None);
    }
    var lower := Pow(10, k - 1);
    var upper := Pow(10, k) - 1;
    PowAtLeastOne(10, k - 1);
    var a := DigitSearch(x, l, lower, upper, mode);
    out := Display(Some(l), Some(a));
    if coprime {
      SystemSearch(x, l, rs, ms, a, mode, lower, upper);
    }
  }

  /** A search over the class of one solution modulo the lcm answers for the whole system. */
  lemma SystemSearch(x: int, l: int, rs: seq<int>, ms: seq<int>, a: Answer, mode: Mode, lower: int, upper: int)
    requires |rs| == |ms| && Solves(x, rs, ms) && IsLcm(l, ms)
    requires lower >= 0 && (l > 0 && lower >= 0 ==> SearchCorrect(a, mode, lower, upper, Class(x, l)))
    ensures SearchCorrect(a, mode, lower, upper, System(rs, ms))
  {
    ClassIsSolutionSet(x, l, rs, ms);
    SearchSameClass(a, mode, lower, upper, Class(x, l), System(rs, ms));
  }
}
