/** The divisor screen: prime factorisation string, divisor count and sums, and the
    divisors in a range, divisible by `k`, or ending in a given digit string. */
module DivisorView {
  import opened Arith
  import opened Js
  import opened Factorization

  // ---------------------------------------------------------------------------
  // Decimal strings

  function DigitChar(d: int): (c: char)
    requires 0 <= d < 10
    ensures '0' <= c <= '9'
  {
    "0123456789"[d]
  }

  /** `n.toString()` for a non-negative integer: its decimal digits, no leading zeros. */
  function DecimalString(n: nat): (s: string)
    ensures 1 <= |s| && (forall i :: 0 <= i < |s| ==> '0' <= s[i] <= '9')
    ensures |s| > 1 ==> s[0] != '0'
  {
    if n < 10 then [DigitChar(n)] else DecimalString(n / 10) + [DigitChar(n % 10)]
  }

  /** `${x}` for an integer: a minus sign before the digits of a negative value. */
  function IntString(x: int): (s: string)
    ensures x >= 0 ==> s == DecimalString(x)
    ensures x < 0 ==> s == "-" + DecimalString(-x)
  {
    if x < 0 then "-" + DecimalString(-x) else DecimalString(x)
  }

  /** The value of a string of decimal digits. */
  function DecimalValue(s: string): nat
    requires forall i :: 0 <= i < |s| ==> '0' <= s[i] <= '9'
  {
    if s == [] then 0 else 10 * DecimalValue(s[..|s| - 1]) + (s[|s| - 1] - '0') as int
  }

  /** Reading back the decimal string of `n` gives `n`. */
  lemma {:induction false} DecimalRoundTrip(n: nat)
    ensures DecimalValue(DecimalString(n)) == n
  {
    var s := DecimalString(n);
    if n >= 10 {
      DecimalRoundTrip(n / 10);
      assert s[..|s| - 1] == DecimalString(n / 10);
    }
    assert "0123456789"[n % 10] as int - '0' as int == n % 10;
  }

  /** A negative value is written with a leading minus sign, and the digits after it read
      back to the magnitude. */
  lemma IntStringReadsBack(x: int)
    ensures var s := IntString(x); |s| >= 1 && (s[0] == '-' <==> x < 0)
    ensures x >= 0 ==> IntString(x) == DecimalString(x) && DecimalValue(DecimalString(x)) == x
    ensures x < 0 ==> IntString(x)[1..] == DecimalString(-x) && DecimalValue(DecimalString(-x)) == -x
  {
    var n: nat := Abs(x);
    DecimalRoundTrip(n);
    var d := DecimalString(n);
    assert '0' <= d[0] <= '9';
    if x < 0 {
      assert IntString(x) == "-" + d;
      assert ("-" + d)[1..] == d;
    }
  }

  /** `str.endsWith(suffix)`. */
  predicate EndsWith(str: string, suffix: string)
  {
    |suffix| <= |str| && str[|str| - |suffix|..] == suffix
  }

  /** `str` ends with `suffix` exactly when some prefix followed by `suffix` makes up `str`. */
  lemma EndsWithIffConcat(str: string, suffix: string)
    ensures EndsWith(str, suffix) <==> exists pre :: pre + suffix == str
  {
    if EndsWith(str, suffix) {
      var pre := str[..|str| - |suffix|];
      assert pre + suffix == str;
    }
    forall pre | pre + suffix == str ensures EndsWith(str, suffix) {
      assert str[|pre|..] == suffix;
    }
  }

  // ---------------------------------------------------------------------------
  // String.prototype.trim

  /** The ECMAScript white space and line terminator characters that `trim` removes:
      tab, line feed, vertical tab, form feed, carriage return, space, no-break space,
      ogham space mark, the spaces U+2000..U+200A, line and paragraph separators, narrow
      no-break space, medium mathematical space, ideographic space and the byte order mark. */
  predicate IsJsSpace(c: char)
  {
    '\t' <= c <= '\r' || c == ' ' || c == '\U{00A0}' || c == '\U{1680}' ||
    '\U{2000}' <= c <= '\U{200A}' || c == '\U{2028}' || c == '\U{2029}' || c == '\U{202F}' ||
    c == '\U{205F}' || c == '\U{3000}' || c == '\U{FEFF}'
  }

  predicate AllSpace(s: string)
  {
    forall i :: 0 <= i < |s| ==> IsJsSpace(s[i])
  }

  /** The number of leading white-space characters. */
  function LeadingSpace(s: string): (n: nat)
    ensures n <= |s| && AllSpace(s[..n]) && (n < |s| ==> !IsJsSpace(s[n]))
  {
    if s != [] && IsJsSpace(s[0]) then
      var rest := LeadingSpace(s[1..]);
      assert s[..1 + rest] == [s[0]] + s[1..][..rest];
      1 + rest
    else 0
  }

  /** The number of trailing white-space characters. */
  function TrailingSpace(s: string): (n: nat)
    ensures n <= |s| && AllSpace(s[|s| - n..]) && (n < |s| ==> !IsJsSpace(s[|s| - n - 1]))
  {
    if s != [] && IsJsSpace(s[|s| - 1]) then
      var rest := TrailingSpace(s[..|s| - 1]);
      assert forall i :: |s| - 1 - rest <= i < |s| - 1 ==> s[i] == s[..|s| - 1][i];
      1 + rest
    else 0
  }

  /** `r` is a middle slice of `s` with only white space cut from either end; it neither
      starts nor ends with white space, and it is empty exactly when `s` is all white space. */
  predicate TrimmedOf(r: string, s: string)
  {
    (exists i, j :: 0 <= i <= j <= |s| && r == s[i..j] && AllSpace(s[..i]) && AllSpace(s[j..])) &&
    (r != [] ==> !IsJsSpace(r[0]) && !IsJsSpace(r[|r| - 1])) &&
    (r == [] <==> AllSpace(s))
  }

  /** `s.trim()`: the middle slice of `s` left after removing white space from both ends.
      It neither starts nor ends with white space, and it is empty exactly when `s` is all
      white space. */
  function Trim(s: string): (r: string)
    ensures TrimmedOf(r, s)
  {
    var i := LeadingSpace(s);
    var t := s[i..];
    var n := TrailingSpace(t);
    var r := t[..|t| - n];
    TrimParts(s, t, i, n, r);
    r
  }

  /** Where `i` leading white-space characters of `s` and `n` trailing ones of the rest
      `t` end. */
  lemma TrimParts(s: string, t: string, i: nat, n: nat, r: string)
    requires i <= |s| && t == s[i..] && AllSpace(s[..i]) && (i < |s| ==> !IsJsSpace(s[i]))
    requires n <= |t| && AllSpace(t[|t| - n..]) && (n < |t| ==> !IsJsSpace(t[|t| - n - 1]))
    requires r == t[..|t| - n]
    ensures TrimmedOf(r, s)
  {
    SliceOfSuffix(s, i, n);
    TrimEmpty(s, i, |s| - n);
    assert 0 <= i <= |s| - n <= |s| && r == s[i..|s| - n];
  }

  /** Cutting `n` characters off the end of the suffix `s[i..]` gives `s[i..|s| - n]`, and
      the characters cut off are those of `s[|s| - n..]`. */
  lemma SliceOfSuffix(s: string, i: nat, n: nat)
    requires i + n <= |s|
    ensures s[i..][..|s| - i - n] == s[i..|s| - n]
    ensures s[i..][|s| - i - n..] == s[|s| - n..]
  {
  }

  /** Nothing is left between the white-space ends exactly when all of `s` is white space. */
  lemma TrimEmpty(s: string, i: int, j: int)
    requires 0 <= i <= j <= |s| && AllSpace(s[..i]) && AllSpace(s[j..])
    requires i < |s| ==> !IsJsSpace(s[i])
    ensures s[i..j] == [] <==> AllSpace(s)
  {
    if i == j {
      forall k | 0 <= k < |s| ensures IsJsSpace(s[k]) {
        assert s[..i][k] == s[k];
      }
    }
  }

  // ---------------------------------------------------------------------------
  // Array.prototype.filter and reduce

  /** `s.filter(keep)`: the elements that pass, in their order. */
  function Filter(s: seq<int>, keep: int -> bool): (r: seq<int>)
    ensures forall x :: x in r <==> x in s && keep(x)
    ensures StrictlyIncreasing(s) ==> StrictlyIncreasing(r)
    ensures |r| <= |s|
  {
    if s == [] then []
    else
      var init := Filter(s[..|s| - 1], keep);
      var last := s[|s| - 1];
      assert s == s[..|s| - 1] + [last];
      assert forall x :: x in s <==> x in s[..|s| - 1] || x == last;
      if keep(last) then
        if StrictlyIncreasing(s) then
          assert forall k :: 0 <= k < |init| ==> init[k] in s[..|s| - 1];
          init + [last]
        else init + [last]
      else init
  }

  /** `s.reduce((acc, val) => acc + val, 0)`, folded from the left. */
  function Sum(s: seq<int>): int
  {
    if s == [] then 0 else Sum(s[..|s| - 1]) + s[|s| - 1]
  }

  function IsEven(d: int): bool { d % 2 == 0 }

  /** The even and the odd elements partition the list, so their sums add up to the
      sum of all of it. */
  lemma {:induction false} SumSplits(s: seq<int>)
    ensures Sum(s) == Sum(Filter(s, IsEven)) + Sum(Filter(s, d => !IsEven(d)))
  {
    if s != [] {
      var init := s[..|s| - 1];
      SumSplits(init);
      var last := s[|s| - 1];
      if IsEven(last) {
        assert Filter(s, IsEven) == Filter(init, IsEven) + [last];
        assert Filter(s, d => !IsEven(d)) == Filter(init, d => !IsEven(d));
      } else {
        assert Filter(s, IsEven) == Filter(init, IsEven);
        assert Filter(s, d => !IsEven(d)) == Filter(init, d => !IsEven(d)) + [last];
      }
    }
  }

  /** The `forEach` that accumulates `sumAll`, `sumEven` and `sumOdd` in one pass. */
  method DivisorSums(divs: seq<int>) returns (sumAll: int, sumOdd: int, sumEven: int)
    ensures sumAll == Sum(divs)
    ensures sumEven == Sum(Filter(divs, IsEven))
    ensures sumOdd == Sum(Filter(divs, d => !IsEven(d)))
  {
    sumAll, sumOdd, sumEven := 0, 0, 0;
    for i := 0 to |divs|
      invariant sumAll == Sum(divs[..i])
      invariant sumEven == Sum(Filter(divs[..i], IsEven))
      invariant sumOdd == Sum(Filter(divs[..i], d => !IsEven(d)))
    {
      var d := divs[i];
      assert divs[..i + 1][..i] == divs[..i];
      sumAll := sumAll + d;
      if d % 2 == 0 {
        sumEven := sumEven + d;
      } else {
        sumOdd := sumOdd + d;
      }
    }
    assert divs[..|divs|] == divs;
  }

  // ---------------------------------------------------------------------------
  // The three filtered lists

  /** `allDivs.filter(d => d >= m && d <= n)`: a bound that did not parse is `NaN`, and
      every comparison with it is false. */
  function InRange(divs: seq<int>, m: Option<int>, n: Option<int>): (r: seq<int>)
    ensures forall x :: x in r <==> x in divs && m.Some? && n.Some? && m.value <= x <= n.value
    ensures StrictlyIncreasing(divs) ==> StrictlyIncreasing(r)
  {
    Filter(divs, d => m.Some? && n.Some? && m.value <= d <= n.value)
  }

  /** `divs.filter(d => d % k === 0)` when `k` parsed to a positive number, else `[]`. */
  function ByK(divs: seq<int>, k: Option<int>): (r: seq<int>)
    ensures k.None? || k.value <= 0 ==> r == []
    ensures k.Some? && k.value > 0 ==> forall x :: x in r <==> x in divs && JsMod(x, k.value) == 0
    ensures StrictlyIncreasing(divs) ==> StrictlyIncreasing(r)
  {
    if k.Some? && k.value > 0 then Filter(divs, d => JsMod(d, k.value) == 0) else []
  }

  /** `divs.filter(d => d.toString().endsWith(s))` for a non-empty `s`, else `[]`. */
  function EndingWith(divs: seq<int>, s: string): (r: seq<int>)
    ensures s == [] ==> r == []
    ensures s != [] ==> forall x :: x in r <==> x in divs && EndsWith(IntString(x), s)
    ensures StrictlyIncreasing(divs) ==> StrictlyIncreasing(r)
  {
    if s != [] then Filter(divs, d => EndsWith(IntString(d), s)) else []
  }

  // ---------------------------------------------------------------------------
  // The factor string

  /** `${p}^{${exp}}`. */
  function Term(entry: (int, nat)): string
  {
    IntString(entry.0) + "^{" + DecimalString(entry.1) + "}"
  }

  /** A term splits back into the base's string, `^{`, the exponent's digits and `}`; the
      base and the exponent read back to the entry. */
  lemma TermReadsBack(p: int, e: nat)
    ensures var t, b := Term((p, e)), IntString(p);
      |t| == |b| + |DecimalString(e)| + 3 && t[..|b|] == b && t[|b|..|b| + 2] == "^{" &&
      t[|b| + 2..|t| - 1] == DecimalString(e) && t[|t| - 1] == '}'
    ensures DecimalValue(DecimalString(e)) == e
    ensures p >= 0 ==> DecimalValue(IntString(p)) == p
  {
    var t, b, x := Term((p, e)), IntString(p), DecimalString(e);
    assert t == b + "^{" + x + "}";
    assert t[..|b|] == b;
    assert t[|b| + 2..|t| - 1] == x;
    DecimalRoundTrip(e);
    IntStringReadsBack(p);
  }

  /** The terms of the map in its iteration (insertion) order. */
  function Terms(factors: Entries): (r: seq<string>)
    ensures |r| == |factors| && forall i :: 0 <= i < |factors| ==> r[i] == Term(factors[i])
  {
    if factors == [] then [] else [Term(factors[0])] + Terms(factors[1..])
  }

  /** `parts.join(sep)`. */
  function Join(parts: seq<string>, sep: string): (r: string)
    ensures parts == [] ==> r == ""
    ensures |parts| == 1 ==> r == parts[0]
    ensures parts != [] ==> |parts[0]| <= |r| && r[..|parts[0]|] == parts[0]
    ensures parts != [] ==> EndsWith(r, parts[|parts| - 1])
  {
    if parts == [] then "" else if |parts| == 1 then parts[0] else parts[0] + sep + Join(parts[1..], sep)
  }

  /** `join` as ECMAScript defines it, left to right: joining one more part appends the
      separator and then the part. */
  lemma {:induction false} JoinAppend(parts: seq<string>, x: string, sep: string)
    requires parts != []
    ensures Join(parts + [x], sep) == Join(parts, sep) + sep + x
  {
    if |parts| > 1 {
      JoinAppend(parts[1..], x, sep);
      assert (parts + [x])[1..] == parts[1..] + [x];
    }
  }

  /** The `forEach` over the factor map that pushes one term per prime. */
  method FactorTerms(factors: Entries) returns (terms: seq<string>)
    ensures terms == Terms(factors)
  {
    terms := [];
    for i := 0 to |factors|
      invariant terms == Terms(factors[..i])
    {
      TermsPrefix(factors, i);
      terms := terms + [Term(factors[i])];
    }
    assert factors[..|factors|] == factors;
  }

  /** One more entry of the map adds its term at the end. */
  lemma TermsPrefix(factors: Entries, i: nat)
    requires i < |factors|
    ensures Terms(factors[..i + 1]) == Terms(factors[..i]) + [Term(factors[i])]
  {
    assert factors[..i + 1] == factors[..i] + [factors[i]];
    TermsAppend(factors[..i], factors[i]);
  }

  lemma {:induction false} TermsAppend(factors: Entries, e: (int, nat))
    ensures Terms(factors + [e]) == Terms(factors) + [Term(e)]
  {
    if factors != [] {
      TermsAppend(factors[1..], e);
      assert (factors + [e])[1..] == factors[1..] + [e];
    }
  }

  /** The separator ` \cdot ` between factors. */
  const Dot: string := " \\cdot "

  /** `f` is the prime factorisation of `a`: increasing primes with positive exponents
      whose product is `a`. */
  ghost predicate IsFactorisation(f: Entries, a: int)
  {
    FactorProduct(f) == a && IncreasingKeys(f) &&
    forall i :: 0 <= i < |f| ==> IsPrime(f[i].0) && f[i].1 >= 1
  }

  // ---------------------------------------------------------------------------
  // handleSolve

  /** The `results` record set by the handler. */
  datatype Results = Results(
    primeFactors: string,
    totalCount: int,
    sumAll: int,
    sumOdd: int,
    sumEven: int,
    divisorsInRange: seq<int>,
    sumInRange: int,
    divisorsByK: seq<int>,
    sumByK: int,
    divisorsEndingS: seq<int>,
    sumEndingS: int)

  /** The positive divisors of `a`. */
  function DivisorSet(a: int): (ds: set<int>)
    ensures forall x :: x in ds <==> 1 <= x <= a && Divides(x, a)
  {
    set x | 1 <= x <= a && Divides(x, a)
  }

  /** A list without repeats has as many elements as its set of values. */
  lemma {:induction false} IncreasingCount(s: seq<int>)
    requires StrictlyIncreasing(s)
    ensures |set x | x in s| == |s|
  {
    if s != [] {
      IncreasingCount(s[1..]);
      assert (set x | x in s) == (set x | x in s[1..]) + {s[0]};
      assert s[0] !in s[1..];
    }
  }

  /** The length of the divisor list is the number of divisors. */
  lemma DivisorCount(a: int, divs: seq<int>)
    requires a >= 1 && divs == DivisorsUpTo(a, a)
    ensures |divs| == |DivisorSet(a)|
  {
    assert (set x | x in divs) == DivisorSet(a);
    IncreasingCount(divs);
  }

  /** `handleSolve` of the divisor screen. An `A` that is `NaN` or below one raises the
      alert and sets nothing. Otherwise: the factor string joins `p^{e}` over the prime
      factorisation of `A` in ascending prime order; `totalCount` is the number of divisors
      of `A`; `sumAll` is their sum and splits into `sumOdd + sumEven`; and each filtered
      list is the ascending list of divisors passing its test, with its sum beside it. */
  method Solve(a: Option<int>, m: Option<int>, n: Option<int>, k: Option<int>, endingS: string)
    returns (out: Option<Results>)
    ensures out.None? <==> a.None? || a.value < 1
    ensures out.Some? ==>
      var r := out.value;
      var divs := DivisorsUpTo(a.value, a.value);
      (exists f :: IsFactorisation(f, a.value) && r.primeFactors == Join(Terms(f), Dot)) &&
      r.totalCount == |DivisorSet(a.value)| &&
      r.sumAll == Sum(divs) && r.sumEven == Sum(Filter(divs, IsEven)) &&
      r.sumOdd == Sum(Filter(divs, d => !IsEven(d))) &&
      r.sumAll == r.sumOdd + r.sumEven &&
      r.divisorsInRange == InRange(divs, m, n) && r.sumInRange == Sum(r.divisorsInRange) &&
      r.divisorsByK == ByK(divs, k) && r.sumByK == Sum(r.divisorsByK) &&
      r.divisorsEndingS == EndingWith(divs, Trim(endingS)) && r.sumEndingS == Sum(r.divisorsEndingS)
  {
    var s := Trim(endingS);
    if a.None? || a.value < 1 {
      return None;
    }
    var numA := a.value;
    var factorsMap := GetPrimeFactors(numA);
    var factorsArr := FactorTerms(factorsMap);
    var primeStr := Join(factorsArr, Dot);
    assert IsFactorisation(factorsMap, numA);

    var allDivs := GetAllDivisors(numA);
    var sumAll, sumOdd, sumEven := DivisorSums(allDivs);
    SumSplits(allDivs);

    var inRange := InRange(allDivs, m, n);
    var byK := ByK(allDivs, k);
    var ending := EndingWith(allDivs, s);

    DivisorCount(numA, allDivs);
    assert IsFactorisation(factorsMap, numA) && primeStr == Join(Terms(factorsMap), Dot);
    out := Some(Results(primeStr, |allDivs|, sumAll, sumOdd, sumEven,
                        inRange, Sum(inRange), byK, Sum(byK), ending, Sum(ending)));
  }
}
