/** The divisor and factorisation engine of `mathUtils.ts`: trial-division prime
    factorisation into an insertion-ordered JavaScript `Map`, and the ascending list
    of all positive divisors. Inputs are JavaScript numbers holding whole values;
    they are modelled as unbounded integers. */
module Factorization {
  import opened Arith

  ghost predicate IsPrime(p: int)
  {
    p >= 2 && forall q :: 2 <= q < p ==> !Divides(q, p)
  }

  predicate Sorted(s: seq<int>)
  {
    forall j, k :: 0 <= j < k < |s| ==> s[j] <= s[k]
  }

  predicate StrictlyIncreasing(s: seq<int>)
  {
    forall j, k :: 0 <= j < k < |s| ==> s[j] < s[k]
  }

  predicate Distinct(s: seq<int>)
  {
    forall j, k :: 0 <= j < k < |s| ==> s[j] != s[k]
  }

  // ---------------------------------------------------------------------------
  // The JavaScript `Map<number, number>`: entries in insertion order.

  type Entries = seq<(int, nat)>

  /** `map.get(k) || 0`: the stored value, or `0` when the key is absent. */
  function GetOrZero(m: Entries, k: int): nat
  {
    if m == [] then 0 else if m[0].0 == k then m[0].1 else GetOrZero(m[1..], k)
  }

  /** `map.set(k, v)`: overwrite the value of an existing key in place, or append a new entry. */
  function MapSet(m: Entries, k: int, v: nat): (r: Entries)
  {
    if m == [] then [(k, v)]
    else if m[0].0 == k then [(k, v)] + m[1..]
    else [m[0]] + MapSet(m[1..], k, v)
  }

  /** `get` finds the first entry with the key, and `0` when there is none. */
  lemma {:induction false} GetFirstEntry(m: Entries, k: int)
    ensures (forall j :: 0 <= j < |m| ==> m[j].0 != k) ==> GetOrZero(m, k) == 0
    ensures forall j :: 0 <= j < |m| && m[j].0 == k && (forall i :: 0 <= i < j ==> m[i].0 != k) ==>
      GetOrZero(m, k) == m[j].1
  {
    if m != [] && m[0].0 != k {
      GetFirstEntry(m[1..], k);
      forall j | 0 < j < |m| && m[j].0 == k && (forall i :: 0 <= i < j ==> m[i].0 != k)
        ensures GetOrZero(m, k) == m[j].1
      {
        assert m[1..][j - 1] == m[j];
        assert forall i :: 0 <= i < j - 1 ==> m[1..][i].0 != k by {
          forall i | 0 <= i < j - 1 ensures m[1..][i].0 != k {
            assert m[1..][i] == m[i + 1];
          }
        }
      }
    }
  }

  /** The map laws of `set`: the key now reads `v`, every other key reads as before, the
      existing entries keep their keys and their order, and a new key goes at the end. */
  lemma {:induction false} SetThenGet(m: Entries, k: int, v: nat)
    ensures GetOrZero(MapSet(m, k, v), k) == v
    ensures forall k' :: k' != k ==> GetOrZero(MapSet(m, k, v), k') == GetOrZero(m, k')
    ensures var r := MapSet(m, k, v);
      |m| <= |r| <= |m| + 1 && forall j :: 0 <= j < |m| ==> r[j].0 == m[j].0
    ensures |MapSet(m, k, v)| == |m| + 1 <==> forall j :: 0 <= j < |m| ==> m[j].0 != k
    ensures |MapSet(m, k, v)| == |m| + 1 ==> MapSet(m, k, v)[|m|] == (k, v)
  {
    var r := MapSet(m, k, v);
    if m != [] && m[0].0 != k {
      SetThenGet(m[1..], k, v);
      assert r[1..] == MapSet(m[1..], k, v);
      forall k' | k' != k ensures GetOrZero(r, k') == GetOrZero(m, k') {
        if m[0].0 != k' {
          assert GetOrZero(r, k') == GetOrZero(r[1..], k');
        }
      }
      if forall j :: 0 <= j < |m| ==> m[j].0 != k {
        assert forall j :: 0 <= j < |m[1..]| ==> m[1..][j].0 != k by {
          forall j | 0 <= j < |m[1..]| ensures m[1..][j].0 != k {
            assert m[1..][j] == m[j + 1];
          }
        }
      }
      if |r| == |m| + 1 {
        forall j | 0 <= j < |m| ensures m[j].0 != k {
          if j > 0 {
            assert m[j] == m[1..][j - 1];
          }
        }
      }
    } else if m != [] {
      assert r[1..] == m[1..];
    }
  }

  predicate IncreasingKeys(m: Entries)
  {
    forall j, k :: 0 <= j < k < |m| ==> m[j].0 < m[k].0
  }

  /** The number a factorisation stands for: the product of `p^e` over its entries. */
  function FactorProduct(m: Entries): int
  {
    if m == [] then 1 else Pow(m[0].0, m[0].1) * FactorProduct(m[1..])
  }

  /** Setting a key larger than every key present appends it. */
  lemma {:induction false} SetNewKey(m: Entries, k: int, v: nat)
    requires forall j :: 0 <= j < |m| ==> m[j].0 < k
    ensures GetOrZero(m, k) == 0 && MapSet(m, k, v) == m + [(k, v)]
  {
    if m != [] {
      SetNewKey(m[1..], k, v);
    }
  }

  /** Setting the key of the last entry, when keys increase, overwrites that entry. */
  lemma {:induction false} SetLastKey(m: Entries, v: nat)
    requires m != [] && IncreasingKeys(m)
    ensures GetOrZero(m, m[|m| - 1].0) == m[|m| - 1].1
    ensures MapSet(m, m[|m| - 1].0, v) == m[..|m| - 1] + [(m[|m| - 1].0, v)]
  {
    if |m| > 1 {
      SetLastKey(m[1..], v);
      assert m[1..][..|m| - 2] == m[1..|m| - 1];
      assert m[..|m| - 1] == [m[0]] + m[1..|m| - 1];
    }
  }

  lemma {:induction false} FactorProductAppend(m: Entries, p: int, e: nat)
    ensures FactorProduct(m + [(p, e)]) == FactorProduct(m) * Pow(p, e)
  {
    if m != [] {
      var head, rest, last := Pow(m[0].0, m[0].1), FactorProduct(m[1..]), Pow(p, e);
      assert (m + [(p, e)])[1..] == m[1..] + [(p, e)];
      assert FactorProduct(m + [(p, e)]) == head * FactorProduct(m[1..] + [(p, e)]);
      FactorProductAppend(m[1..], p, e);
      assert head * (rest * last) == (head * rest) * last;
    }
  }

  // ---------------------------------------------------------------------------
  // Primality facts used by trial division

  /** The least factor `i >= 2` of a number is prime. */
  lemma LeastFactorIsPrime(i: int, t: int)
    requires i >= 2 && Divides(i, t)
    requires forall q :: 2 <= q < i ==> !Divides(q, t)
    ensures IsPrime(i)
  {
    forall q | 2 <= q < i ensures !Divides(q, i) {
      if Divides(q, i) {
        DividesTrans(q, i, t);
      }
    }
  }

  /** A number above 1 with no factor below `i`, where `i * i` exceeds it, is prime. */
  lemma NoSmallFactorIsPrime(t: int, i: int)
    requires t > 1 && i >= 2 && i * i > t
    requires forall q :: 2 <= q < i ==> !Divides(q, t)
    ensures IsPrime(t)
  {
    forall q | 2 <= q < t ensures !Divides(q, t) {
      if Divides(q, t) {
        var c := t / q;
        assert t == c * q;
        if c <= 1 {
          MulMonotone(c, q, 1, q);
        } else {
          MultipleMod(q, c);
          assert Divides(c, t);
          if c >= i {
            MulMonotone(i, i, c, q);
          }
        }
      }
    }
  }

  /** Trial division leaves a cofactor with no factor below `i`, so the cofactor is
      at least `i` once it exceeds 1. */
  lemma CofactorAtLeast(t: int, i: int)
    requires t > 1 && forall q :: 2 <= q < i ==> !Divides(q, t)
    ensures t >= i
  {
    if t < i {
      MultipleMod(1, t);
      assert Divides(t, t);
      assert false;
    }
  }

  /** Dividing out a factor keeps the absence of smaller factors. */
  lemma NoSmallFactorKept(t: int, i: int)
    requires i >= 2 && Divides(i, t) && t > 0
    requires forall q :: 2 <= q < i ==> !Divides(q, t)
    ensures forall q :: 2 <= q < i ==> !Divides(q, t / i)
  {
    forall q | 2 <= q < i ensures !Divides(q, t / i) {
      if Divides(q, t / i) {
        assert t == (t / i) * i;
        DividesMultiple(t / i, i);
        DividesTrans(q, t / i, t);
      }
    }
  }

  // ---------------------------------------------------------------------------
  // getPrimeFactors

  /** The loop state of trial division on `d`: the factors found so far times the
      remaining cofactor `temp` give back `d`, every key found is a prime below `i`,
      keys increase, and `temp` has no factor below `i`. */
  ghost predicate TrialDivisionInv(d: int, factors: Entries, temp: int, i: int)
  {
    2 <= i && 1 <= temp &&
    FactorProduct(factors) * temp == d &&
    IncreasingKeys(factors) &&
    (forall j :: 0 <= j < |factors| ==> factors[j].0 < i && IsPrime(factors[j].0) && factors[j].1 >= 1) &&
    (forall q :: 2 <= q < i ==> !Divides(q, temp))
  }

  /** The state inside the inner loop that divides out copies of `i`: as above,
      except that the last key may be `i` itself. */
  ghost predicate DividingOutInv(d: int, factors: Entries, temp: int, i: int)
  {
    2 <= i && 1 <= temp &&
    FactorProduct(factors) * temp == d &&
    IncreasingKeys(factors) &&
    (forall j :: 0 <= j < |factors| ==> factors[j].0 <= i && IsPrime(factors[j].0) && factors[j].1 >= 1) &&
    (forall j :: 0 <= j < |factors| - 1 ==> factors[j].0 < i) &&
    (forall q :: 2 <= q < i ==> !Divides(q, temp))
  }

  lemma StartDividingOut(d: int, factors: Entries, temp: int, i: int)
    requires TrialDivisionInv(d, factors, temp, i)
    ensures DividingOutInv(d, factors, temp, i)
  {
  }

  lemma ProductStep(p: int, temp: int, i: int, d: int)
    requires p * temp == d && i > 0 && temp % i == 0
    ensures (p * i) * (temp / i) == d
  {
    assert temp == (temp / i) * i;
  }

  /** Dividing one copy of `i` out of `temp` and recording it keeps the inner state. */
  lemma DivideOutStep(d: int, factors: Entries, temp: int, i: int)
    requires DividingOutInv(d, factors, temp, i) && temp % i == 0
    ensures DividingOutInv(d, MapSet(factors, i, GetOrZero(factors, i) + 1), temp / i, i)
    ensures temp / i < temp
  {
    LeastFactorIsPrime(i, temp);
    FactorStepFacts(factors, i);
    NoSmallFactorKept(temp, i);
    ProductStep(FactorProduct(factors), temp, i, d);
    QuotientSmaller(temp, i);
  }

  lemma QuotientSmaller(t: int, i: int)
    requires t >= 1 && i >= 2
    ensures t / i < t
  {
    MulMonotone(2, t / i, i, t / i);
  }

  /** Once `i` no longer divides `temp`, every key is below `i + 1` and `temp` has no
      factor below `i + 1`. */
  lemma FinishDividingOut(d: int, factors: Entries, temp: int, i: int)
    requires DividingOutInv(d, factors, temp, i) && temp % i != 0
    ensures TrialDivisionInv(d, factors, temp, i + 1)
  {
  }

  /** `getPrimeFactors`: the prime factorisation of `|n|` by trial division, as an
      insertion-ordered map from prime to exponent; empty for `n == 0` (and for `|n| == 1`). */
  method GetPrimeFactors(n: int) returns (factors: Entries)
    ensures Abs(n) < 1 ==> factors == []
    ensures Abs(n) >= 1 ==> FactorProduct(factors) == Abs(n)
    ensures IncreasingKeys(factors)
    ensures forall j :: 0 <= j < |factors| ==> IsPrime(factors[j].0) && factors[j].1 >= 1
  {
    var d := Abs(n);
    factors := [];
    if d < 1 {
      return;
    }
    var temp: int := d;
    var i := 2;
    while i * i <= temp
      invariant TrialDivisionInv(d, factors, temp, i)
      decreases temp - i
    {
      MulAtLeast(i, i);
      ghost var before := temp;
      StartDividingOut(d, factors, temp, i);
      while temp % i == 0
        invariant DividingOutInv(d, factors, temp, i)
        invariant temp <= before
        decreases temp
      {
        DivideOutStep(d, factors, temp, i);
        factors := MapSet(factors, i, GetOrZero(factors, i) + 1);
        temp := temp / i;
      }
      FinishDividingOut(d, factors, temp, i);
      i := i + 1;
    }
    if temp > 1 {
      LastCofactor(d, factors, temp, i);
      factors := MapSet(factors, temp, GetOrZero(factors, temp) + 1);
    } else {
      NoCofactor(d, factors, temp, i);
    }
  }

  /** With the cofactor down to 1, the entries found so far are the whole factorisation. */
  lemma NoCofactor(d: int, factors: Entries, temp: int, i: int)
    requires TrialDivisionInv(d, factors, temp, i) && temp <= 1
    ensures FactorProduct(factors) == d && IncreasingKeys(factors)
    ensures forall j :: 0 <= j < |factors| ==> IsPrime(factors[j].0) && factors[j].1 >= 1
  {
  }

  /** A cofactor above 1 left when `i * i` exceeds it is a prime larger than every key. */
  lemma LastCofactor(d: int, factors: Entries, temp: int, i: int)
    requires TrialDivisionInv(d, factors, temp, i) && temp > 1 && i * i > temp
    ensures var r := MapSet(factors, temp, GetOrZero(factors, temp) + 1);
      r == factors + [(temp, 1)] && FactorProduct(r) == d && IncreasingKeys(r) &&
      forall j :: 0 <= j < |r| ==> IsPrime(r[j].0) && r[j].1 >= 1
  {
    NoSmallFactorIsPrime(temp, i);
    CofactorAtLeast(temp, i);
    SetNewKey(factors, temp, 1);
    FactorProductAppend(factors, temp, 1);
  }

  /** One `factors.set(i, (factors.get(i) || 0) + 1)` for a prime `i` at least every key:
      the product grows by the factor `i` and the key order is kept. */
  lemma FactorStepFacts(factors: Entries, i: int)
    requires IncreasingKeys(factors) && IsPrime(i)
    requires forall j :: 0 <= j < |factors| ==> factors[j].0 <= i && IsPrime(factors[j].0) && factors[j].1 >= 1
    requires forall j :: 0 <= j < |factors| - 1 ==> factors[j].0 < i
    ensures var r := MapSet(factors, i, GetOrZero(factors, i) + 1);
      FactorProduct(r) == FactorProduct(factors) * i &&
      IncreasingKeys(r) &&
      (forall j :: 0 <= j < |r| ==> r[j].0 <= i && IsPrime(r[j].0) && r[j].1 >= 1) &&
      (forall j :: 0 <= j < |r| - 1 ==> r[j].0 < i)
  {
    if factors != [] && factors[|factors| - 1].0 == i {
      BumpLast(factors, i);
      var init := factors[..|factors| - 1];
      EndsWithKey(init, i, factors[|factors| - 1].1 + 1);
    } else {
      BumpNew(factors, i);
      EndsWithKey(factors, i, 1);
    }
  }

  /** Appending a prime key `i` above every key of `init`, whose keys are increasing
      primes with positive exponents, keeps all of that. */
  lemma EndsWithKey(init: Entries, i: int, e: nat)
    requires IncreasingKeys(init) && IsPrime(i) && e >= 1
    requires forall j :: 0 <= j < |init| ==> init[j].0 < i && IsPrime(init[j].0) && init[j].1 >= 1
    ensures var r := init + [(i, e)];
      IncreasingKeys(r) &&
      (forall j :: 0 <= j < |r| ==> r[j].0 <= i && IsPrime(r[j].0) && r[j].1 >= 1) &&
      (forall j :: 0 <= j < |r| - 1 ==> r[j].0 < i)
  {
  }

  lemma BumpLast(factors: Entries, i: int)
    requires factors != [] && factors[|factors| - 1].0 == i && IncreasingKeys(factors)
    requires forall j :: 0 <= j < |factors| - 1 ==> factors[j].0 < i
    ensures var r := MapSet(factors, i, GetOrZero(factors, i) + 1);
      r == factors[..|factors| - 1] + [(i, factors[|factors| - 1].1 + 1)] &&
      FactorProduct(r) == FactorProduct(factors) * i
  {
    var init, e := factors[..|factors| - 1], factors[|factors| - 1].1;
    SetLastKey(factors, e + 1);
    assert FactorProduct(factors) == FactorProduct(init) * Pow(i, e) by {
      assert factors == init + [(i, e)];
      FactorProductAppend(init, i, e);
    }
    assert FactorProduct(init + [(i, e + 1)]) == FactorProduct(init) * (i * Pow(i, e)) by {
      FactorProductAppend(init, i, e + 1);
    }
    MulRearrange(FactorProduct(init), Pow(i, e), i);
  }

  lemma MulRearrange(p: int, x: int, i: int)
    ensures p * (i * x) == (p * x) * i
  {
  }

  lemma BumpNew(factors: Entries, i: int)
    requires forall j :: 0 <= j < |factors| ==> factors[j].0 < i
    ensures var r := MapSet(factors, i, GetOrZero(factors, i) + 1);
      r == factors + [(i, 1)] && FactorProduct(r) == FactorProduct(factors) * i
  {
    SetNewKey(factors, i, 1);
    FactorProductAppend(factors, i, 1);
    assert Pow(i, 1) == i;
  }

  // ---------------------------------------------------------------------------
  // getAllDivisors

  /** The positive divisors of `d` up to `k`, ascending: the brute-force reference
      enumeration that the square-root scan must agree with. */
  function DivisorsUpTo(d: int, k: int): (r: seq<int>)
    ensures forall x :: x in r <==> 1 <= x <= k && Divides(x, d)
    ensures StrictlyIncreasing(r)
    decreases k
  {
    if k <= 0 then []
    else
      var below := DivisorsUpTo(d, k - 1);
      assert forall j :: 0 <= j < |below| ==> below[j] < k by {
        forall j | 0 <= j < |below| ensures below[j] < k {
          assert below[j] in below;
        }
      }
      below + (if d % k == 0 then [k] else [])
  }

  /** `divs.sort((a, b) => a - b)`: one element inserted into an ascending list. */
  function InsertSorted(x: int, s: seq<int>): (r: seq<int>)
    requires Sorted(s)
    ensures Sorted(r) && multiset(r) == multiset(s) + multiset{x}
  {
    if s == [] || x <= s[0] then [x] + s
    else
      var rest := InsertSorted(x, s[1..]);
      HeadBelowRest(s[0], x, s[1..], rest);
      assert s == [s[0]] + s[1..];
      [s[0]] + rest
  }

  lemma HeadBelowRest(h: int, x: int, tail: seq<int>, rest: seq<int>)
    requires h < x && Sorted([h] + tail) && Sorted(rest)
    requires multiset(rest) == multiset(tail) + multiset{x}
    ensures Sorted([h] + rest)
  {
    forall y | y in rest ensures h <= y {
      assert y in multiset(rest);
      if y != x {
        assert y in multiset(tail);
        assert y in tail;
        var k :| 0 <= k < |tail| && tail[k] == y;
        assert ([h] + tail)[0] == h && ([h] + tail)[k + 1] == y;
      }
    }
    forall j, k | 0 <= j < k < |[h] + rest| ensures ([h] + rest)[j] <= ([h] + rest)[k] {
      if j == 0 {
        assert ([h] + rest)[k] in rest;
      }
    }
  }

  /** `divs.sort((a, b) => a - b)`: the ascending permutation of the list. */
  function SortAscending(s: seq<int>): (r: seq<int>)
    ensures Sorted(r) && multiset(r) == multiset(s)
  {
    if s == [] then []
    else
      assert s == [s[0]] + s[1..];
      InsertSorted(s[0], SortAscending(s[1..]))
  }

  lemma {:induction false} DistinctCounts(s: seq<int>, x: int)
    requires Distinct(s)
    ensures multiset(s)[x] <= 1
  {
    if s != [] {
      assert s == [s[0]] + s[1..];
      assert Distinct(s[1..]);
      DistinctCounts(s[1..], x);
      if x == s[0] {
        assert x !in s[1..];
      }
    }
  }

  /** Sorting a list without repeats yields a strictly increasing list. */
  lemma SortedWithoutRepeats(r: seq<int>, s: seq<int>)
    requires Sorted(r) && multiset(r) == multiset(s) && Distinct(s)
    ensures StrictlyIncreasing(r)
  {
    forall j, k | 0 <= j < k < |r| ensures r[j] < r[k] {
      if r[j] == r[k] {
        var x := r[j];
        assert r == r[..k] + r[k..];
        assert x in r[..k] && x in r[k..];
        assert multiset(r) == multiset(r[..k]) + multiset(r[k..]);
        DistinctCounts(s, x);
        assert false;
      }
    }
  }

  /** A strictly increasing list is determined by its elements. */
  lemma {:induction false} IncreasingUnique(a: seq<int>, b: seq<int>)
    requires StrictlyIncreasing(a) && StrictlyIncreasing(b)
    requires forall x :: x in a <==> x in b
    ensures a == b
  {
    if a != [] {
      assert a[0] in a;
    }
    if b != [] {
      assert b[0] in b;
    }
    if a != [] && b != [] {
      assert a[0] in b && b[0] in a;
      assert a[0] == b[0];
      forall x ensures x in a[1..] <==> x in b[1..] {
        assert x in a[1..] <==> x in a && x != a[0];
        assert x in b[1..] <==> x in b && x != b[0];
      }
      IncreasingUnique(a[1..], b[1..]);
      assert a == [a[0]] + a[1..] && b == [b[0]] + b[1..];
    }
  }

  /** The divisor paired with `x`. */
  lemma CoDivisor(d: int, x: int)
    requires d >= 1 && Divides(x, d)
    ensures d / x >= 1 && Divides(d / x, d) && d / (d / x) == x
  {
    var c := d / x;
    assert d == c * x;
    ModUnique(d, x, 0, c);
  }

  /** Below the square root, the paired divisor is at least the divisor itself. */
  lemma CoDivisorAbove(d: int, i: int)
    requires d >= 1 && Divides(i, d) && i * i <= d
    ensures d / i >= i
  {
    var c := d / i;
    assert d == c * i;
    if c < i {
      MulMonotone(c, i, i - 1, i);
    }
  }

  /** The scan has already met `x` when `x` divides `d` and `x` or its paired divisor
      `d / x` is below `i`. */
  predicate Seen(d: int, x: int, i: int)
  {
    Divides(x, d) && (x < i || d / x < i)
  }

  /** Past the square root, every divisor has been met. */
  lemma PastRoot(d: int, x: int, i: int)
    requires d >= 1 && Divides(x, d) && i >= 1 && i * i > d
    ensures Seen(d, x, i)
  {
    var c := d / x;
    assert d == c * x;
    if x >= i && c >= i {
      MulMonotone(i, i, c, x);
    }
  }

  /** The loop state of the divisor scan: the list holds each divisor `x` of `d` whose
      pair `(x, d / x)` has a member below `i`, each once. */
  ghost predicate ScanInv(d: int, divs: seq<int>, i: int)
  {
    (forall x :: x in divs <==> Seen(d, x, i)) && Distinct(divs)
  }

  /** Moving past `i`, the only divisors newly met are `i` and its pair `d / i`. */
  lemma SeenStep(d: int, x: int, i: int)
    requires d >= 1 && i >= 1 && i * i <= d
    ensures Seen(d, x, i + 1) <==> Seen(d, x, i) || (d % i == 0 && (x == i || x == d / i))
  {
    if Divides(x, d) && d / x == i {
      CoDivisor(d, x);
    }
    if d % i == 0 {
      assert Divides(i, d);
      CoDivisor(d, i);
    }
  }

  /** Below the square root, neither `i` nor its pair has been met yet. */
  lemma UnseenPair(d: int, i: int)
    requires d >= 1 && i >= 1 && i * i <= d && Divides(i, d)
    ensures !Seen(d, i, i) && !Seen(d, d / i, i)
    ensures i * i != d ==> d / i != i
  {
    CoDivisor(d, i);
    CoDivisorAbove(d, i);
  }

  lemma ScanHit(d: int, divs: seq<int>, i: int)
    requires d >= 1 && i >= 1 && i * i <= d && d % i == 0 && ScanInv(d, divs, i)
    ensures ScanInv(d, if i * i != d then divs + [i, d / i] else divs + [i], i + 1)
  {
    assert Divides(i, d);
    UnseenPair(d, i);
    var divs' := if i * i != d then divs + [i, d / i] else divs + [i];
    forall x ensures x in divs' <==> Seen(d, x, i + 1) {
      SeenStep(d, x, i);
    }
  }

  lemma ScanMiss(d: int, divs: seq<int>, i: int)
    requires d >= 1 && i >= 1 && i * i <= d && d % i != 0 && ScanInv(d, divs, i)
    ensures ScanInv(d, divs, i + 1)
  {
    forall x ensures x in divs <==> Seen(d, x, i + 1) {
      SeenStep(d, x, i);
    }
  }

  lemma ScanDone(d: int, divs: seq<int>, i: int)
    requires d >= 1 && i >= 1 && i * i > d && ScanInv(d, divs, i)
    ensures forall x :: x in divs <==> Divides(x, d)
  {
    forall x | Divides(x, d) ensures x in divs {
      PastRoot(d, x, i);
    }
  }

  /** `getAllDivisors`: every positive divisor of `|n|`, ascending and without repeats
      (a square root once); empty for `n == 0`. The list agrees with the brute-force
      enumeration of `1..|n|`. */
  method GetAllDivisors(n: int) returns (r: seq<int>)
    ensures Abs(n) == 0 ==> r == []
    ensures r == DivisorsUpTo(Abs(n), Abs(n))
    ensures StrictlyIncreasing(r)
    ensures Abs(n) > 0 ==> forall x :: x in r <==> Divides(x, Abs(n))
  {
    var d: int := Abs(n);
    var divisors: seq<int> := [];
    if d == 0 {
      return [];
    }
    var i := 1;
    while i * i <= d
      invariant i >= 1 && ScanInv(d, divisors, i)
      decreases d - i
    {
      MulAtLeast(i, i);
      if d % i == 0 {
        ScanHit(d, divisors, i);
        divisors := divisors + [i];
        if i * i != d {
          divisors := divisors + [d / i];
        }
      } else {
        ScanMiss(d, divisors, i);
      }
      i := i + 1;
    }
    ScanDone(d, divisors, i);
    r := SortAscending(divisors);
    SortedDivisors(d, divisors, r);
  }

  /** Sorting the scanned divisors gives the reference enumeration. */
  lemma SortedDivisors(d: int, divs: seq<int>, r: seq<int>)
    requires d >= 1 && Distinct(divs) && (forall x :: x in divs <==> Divides(x, d))
    requires r == SortAscending(divs)
    ensures r == DivisorsUpTo(d, d) && StrictlyIncreasing(r)
    ensures forall x :: x in r <==> Divides(x, d)
  {
    SortedWithoutRepeats(r, divs);
    forall x ensures x in r <==> x in divs {
      assert x in r <==> x in multiset(r);
      assert x in divs <==> x in multiset(divs);
    }
    forall x | Divides(x, d) ensures x <= d {
      DividesLe(x, d);
    }
    IncreasingUnique(r, DivisorsUpTo(d, d));
  }

  /** The divisors of 28, as the screen lists them: exactly the candidates from 1 to 28 that
      leave no remainder, in ascending order. */
  lemma DivisorsOf28()
    ensures DivisorsUpTo(28, 28) == [1, 2, 4, 7, 14, 28]
  {
    var expected := [1, 2, 4, 7, 14, 28];
    forall x ensures x in DivisorsUpTo(28, 28) <==> x in expected {
      if 1 <= x <= 28 {
        DividesTwentyEight(x);
      }
    }
    IncreasingUnique(DivisorsUpTo(28, 28), expected);
  }

  /** Which of the candidates from 1 to 28 divide 28, one candidate at a time. */
  lemma DividesTwentyEight(x: int)
    requires 1 <= x <= 28
    ensures 28 % x == 0 <==> x == 1 || x == 2 || x == 4 || x == 7 || x == 14 || x == 28
  {
    assert x == 1 || x == 2 || x == 3 || x == 4 || x == 5 || x == 6 || x == 7 || x == 8 || x == 9 || x == 10 ||
           x == 11 || x == 12 || x == 13 || x == 14 || x == 15 || x == 16 || x == 17 || x == 18 || x == 19 || x == 20 ||
           x == 21 || x == 22 || x == 23 || x == 24 || x == 25 || x == 26 || x == 27 || x == 28;
  }
}
