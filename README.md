# Number-theory core of the math toolkit, in Dafny

This project models the exact-integer number theory behind four screens of a
TypeScript maths-teaching toolkit and proves what each piece computes.

- **Modular arithmetic** (`mathUtils.ts`):
  - `powerMod`, square-and-multiply exponentiation;
  - `mulInv`, the extended-Euclid inverse;
  - `solveCRT`, the direct Chinese-Remainder combination.
- **Divisor engine** (`mathUtils.ts`, `features/DivisorView.tsx`):
  - `getPrimeFactors`, trial-division factorisation into an insertion-ordered map;
  - `getAllDivisors`, divisor pairs up to the square root, then a numeric sort;
  - the divisor screen's handler: input validation, the `p^{e} \cdot ...` factor
    string, the sums of all, odd and even divisors, and the range, divisibility
    and decimal-suffix filters with their sums.
- **CRT screen** (`features/CRTView.tsx`):
  - the recursive `gcd` and `lcm`;
  - the lcm fold over the moduli;
  - the search for the least (MIN) or greatest (MAX) `k`-digit number in the
    residue class of the CRT solution.
- **Conjugate-power screen** (`features/ConjugatePowerView.tsx`):
  - the 2x2 modular matrix `multiply`, which fills a result array in place;
  - the binary `matrixPower`;
  - the modular and exact computations of `S_n = (a + sqrt b)^n + (a - sqrt b)^n`.

The modelling choices:

- JavaScript `bigint` `/` and `%` truncate toward zero. `Js.JsDiv` and `Js.JsMod`
  model them, and a zero divisor throws; the operations return `Js.Result`
  (`Ok` or `Thrown`) where that can happen.
- Loops in the source are Dafny `while`/`for` loops proved against specification
  functions:
  - `Arith.Pow`;
  - `Factorization.DivisorsUpTo` and `Factorization.FactorProduct`;
  - `ConjugatePower.MatPow` and `ConjugatePower.S`;
  - `DivisorView.Sum`, `DivisorView.Filter` and `DivisorView.Terms`.
- `moduli.reduce` in `solveCRT` is the function `Arith.Prod`, with no loop.
- For positive moduli that are not pairwise coprime, `solveCRT` throws instead of
  returning a number. Some cofactor then shares a factor with its modulus, so
  `mulInv`'s Euclidean loop reaches a zero divisor at mathUtils.ts:30. The CRT
  screen then shows nothing.
- Congruence is `Arith.Cong(x, y, m)`: `m` divides `x - y`. It is taken modulo
  `|m|` wherever the source allows a negative modulus.
- `multiply`'s result matrix `C` is a `new int[2, 2]`. The `i`/`j` loops fill it one
  finished cell at a time, and the inner `k` loop sums each cell in a local.
- A JavaScript `Map` (insertion-ordered) is a sequence of `(key, value)` pairs
  (`Factorization.Entries`, updated by `MapSet`).
- A text field that `parseInt`/`BigInt` turns into a number is an `Option<int>`.
  `None` stands for `NaN` or for the `SyntaxError` that `BigInt` throws.

## Model

| member | source | states |
|---|---|---|
| MathUtils.SquareMultiplyStep | mathUtils.ts:5-9 | one pass of the loop keeps `res * base^exp` congruent to `b^e` modulo `abs(mod)`, with `base` squared and `exp` halved |
| MathUtils.PowerMod | mathUtils.ts:2-11 | throws exactly when `mod == 0`; a non-positive exponent returns the unreduced `1`; otherwise the result is below `abs(mod)` in size and congruent to `b^e`; for `mod > 0`, `b >= 0` it is `b^e mod mod` |
| MathUtils.EuclidStep | mathUtils.ts:29-33 | one pass of the extended-Euclid loop keeps the pair's common divisors and the Bezout coefficients of both values |
| MathUtils.InverseInRange | mathUtils.ts:34-35 | when the loop stops at `1`, the coefficient shifted by `b0` lies in `[0, b)` and `a * x mod b == 1` |
| MathUtils.MulInv | mathUtils.ts:25-36 | `b == 1` (or `a <= 1`) returns `1`; for `a >= 1`, `b > 1` it succeeds exactly when `gcd(a, b) == 1` (otherwise `a / b` divides by zero) and then returns the inverse in `[0, b)` |
| MathUtils.CofactorIsProduct | mathUtils.ts:14-19 | `prod / m_i` is the product of the other moduli and is positive |
| MathUtils.CofactorProperties | mathUtils.ts:19-20 | for pairwise-coprime moduli the cofactor of `m_i` is coprime to `m_i` and a multiple of every other modulus |
| MathUtils.CofactorsCoprime | mathUtils.ts:16-20 | if every modulus is coprime to its cofactor, which every successful `mulInv(p, m)` call witnesses, the moduli are pairwise coprime; so positive moduli that are not pairwise coprime make some call throw |
| MathUtils.CrtTermStep | mathUtils.ts:17-21 | adding the `i`-th term fixes the residue modulo `m_i` to `r_i` and keeps every other residue |
| MathUtils.SolveCRT | mathUtils.ts:13-23 | never yields `null`; no moduli give `0`; a zero modulus throws; positive pairwise-coprime moduli give a value congruent to every `r_i` modulo `m_i`, of size below the product, and in `[0, product)` when the remainders are non-negative; positive moduli that are not pairwise coprime throw, because `mulInv` of some cofactor divides by zero |
| MathUtils.ReducedSolution | mathUtils.ts:22 | reducing a solution of the system modulo the product of the moduli (truncating `%`) keeps it a solution |
| Factorization.LeastFactorIsPrime | mathUtils.ts:119-120 | the least factor at least `2` of the running cofactor is prime |
| Factorization.GetFirstEntry | mathUtils.ts:120 | `factors.get(i)`, with `0` as the fallback, is the value of the first entry with key `i`, and `0` when no entry has that key |
| Factorization.SetThenGet | mathUtils.ts:120 | after `factors.set(k, v)` the key `k` reads `v`; every other key reads as before; the existing entries keep their keys and order; a new key is appended as `(k, v)`, which happens exactly when `k` was absent |
| Factorization.DivideOutStep | mathUtils.ts:119-122 | dividing `i` out once keeps `product(factors) * temp == abs(n)`, key order and primality, and shrinks `temp` |
| Factorization.LastCofactor | mathUtils.ts:124 | the cofactor above `1` left when `i * i` exceeds it is a prime above every key, and adding it completes the factorisation |
| Factorization.GetPrimeFactors | mathUtils.ts:112-126 | `abs(n) == 0` gives the empty map; otherwise the product of `p^e` over the entries is `abs(n)`, keys are prime and strictly increasing in insertion order, exponents at least `1` |
| Factorization.DivisorsUpTo | mathUtils.ts:128-139 | reference list: exactly the divisors of `d` in `[1, k]`, strictly increasing |
| Factorization.ScanHit | mathUtils.ts:133-135 | pushing `i` and, unless `i * i == d`, `d / i` keeps the scanned list equal, as a set, to the divisors with `i` or its partner seen, without repeats |
| Factorization.ScanMiss | mathUtils.ts:133 | a non-divisor `i` adds nothing and keeps the same invariant |
| Factorization.ScanDone | mathUtils.ts:132 | once `i * i > d` every divisor has been seen, so the list holds exactly the divisors, without repeats |
| Factorization.InsertSorted | mathUtils.ts:138 | inserting into an ascending list keeps it ascending and adds exactly that element |
| Factorization.SortAscending | mathUtils.ts:138 | the numeric sort returns an ascending permutation of its input |
| Factorization.IncreasingUnique | mathUtils.ts:138 | two strictly increasing lists with the same elements are equal |
| Factorization.SortedDivisors | mathUtils.ts:138 | sorting the repeat-free scanned list yields the reference divisor list |
| Factorization.GetAllDivisors | mathUtils.ts:128-139 | `0` gives `[]`; otherwise the result is the reference list of divisors of `abs(n)`, strictly ascending, holding exactly the positive divisors |
| Factorization.DivisorsOf28 | mathUtils.ts:128-139 | the divisors of `28` are `[1, 2, 4, 7, 14, 28]` |
| CrtView.Gcd | features/CRTView.tsx:19 | zero exactly when both arguments are; non-negative on non-negative arguments; its magnitude divides both arguments and every common divisor divides it |
| CrtView.Lcm | features/CRTView.tsx:20 | throws exactly when both arguments are zero; non-zero arguments give a non-zero result; positive arguments give their least common multiple |
| CrtView.DigitCount | features/CRTView.tsx:39 | `parseInt(digits)` with `1` as the fallback: a parsed non-zero count is kept; `NaN` and `0` become `1`; the result is never zero, and it is at least one exactly when the field is `NaN` or non-negative |
| CrtView.LcmOfPositive | features/CRTView.tsx:20 | `a * b / gcd(a, b)` is a positive common multiple of `a` and `b` that divides every common multiple |
| CrtView.LcmFoldStep | features/CRTView.tsx:34-35 | folding one more modulus into the lcm of a prefix gives the lcm of the longer prefix |
| CrtView.LcmFold | features/CRTView.tsx:33-36 | the fold over non-zero moduli is non-zero, and over positive moduli it is their least common multiple |
| CrtView.Normalised | features/CRTView.tsx:43-44 | the normalised value lies in `[0, L)` and is congruent to the solution modulo `L` |
| CrtView.CeilStep | features/CRTView.tsx:48-50 | `k = (diff + L - 1) / L` is the least multiplier with `k * L >= diff` |
| CrtView.FloorStep | features/CRTView.tsx:61-63 | `k = diff / L` is the greatest multiplier with `k * L <= diff` |
| CrtView.MinStep | features/CRTView.tsx:47-51 | from a class member below `lower`, adding `k = (diff + L - 1) / L` times `L` lands on a class member at or above `lower` with the previous member below it |
| CrtView.MaxStep | features/CRTView.tsx:60-63 | from a class member at or below `upper`, adding `k = diff / L` times `L` lands on a class member at or below `upper` with the next member above it |
| CrtView.MinAnswer | features/CRTView.tsx:46-56 | after the MIN step, the value is the least class member at or above `lower`, so it is reported exactly when some member lies in `[lower, upper]` |
| CrtView.MaxNone | features/CRTView.tsx:58-59 | when the normalised value in `[0, L)` is already above `upper`, no class member lies in `[lower, upper]`, so "not found" is right |
| CrtView.MaxAnswer | features/CRTView.tsx:60-69 | after the MAX step, the value is the greatest class member at or below `upper`, so it is reported exactly when some member lies in `[lower, upper]` |
| CrtView.DigitSearch | features/CRTView.tsx:43-70 | for `L > 0` and `lower >= 0`: "not found" exactly when no member of the class of `sol` lies in `[lower, upper]`; otherwise the least (MIN) or greatest (MAX) such member |
| CrtView.ClassIsSolutionSet | features/CRTView.tsx:31-36 | when `sol` solves the system and `L` is the lcm of the moduli, the numbers congruent to `sol` modulo `L` are exactly the solutions of the system |
| CrtView.SystemSearch | features/CRTView.tsx:31-70 | a search that is correct for the class of one solution modulo the lcm is correct for the whole system |
| CrtView.Solve | features/CRTView.tsx:22-74 | a field that does not parse, or a zero modulus, shows nothing; positive moduli that are not pairwise coprime show nothing; the "no solution" branch cannot be reached; a digit count below one shows only the lcm; for positive pairwise-coprime moduli it shows their lcm and the least or greatest `k`-digit solution of the system, or "not found" exactly when there is none |
| CrtView.SolveParsed | features/CRTView.tsx:29-70 | with every field parsed: a zero modulus, or positive moduli that are not pairwise coprime, show nothing; a digit count below one shows only the lcm; positive pairwise-coprime moduli show their lcm and the least or greatest `k`-digit solution, or "not found" exactly when there is none |
| ConjugatePower.CellStep | features/ConjugatePowerView.tsx:16-17 | one update of `C[i][j]` keeps it congruent to the partial row-by-column sum, within `abs(mod)`, and in `[0, mod)` for positive `mod` |
| ConjugatePower.ProductCell | features/ConjugatePowerView.tsx:15-18 | the `k` loop leaves `C[i][j]` congruent to the `(i, j)` entry of the product modulo `abs(mod)`, below `abs(mod)` in size, and in `[0, mod)` for positive `mod` |
| ConjugatePower.FilledMatrix | features/ConjugatePowerView.tsx:13-19 | four cells that each hold their entry of the product make a matrix congruent to the product, bounded by `abs(mod)`, and reduced for positive `mod` |
| ConjugatePower.Multiply | features/ConjugatePowerView.tsx:11-20 | the filled matrix is entrywise congruent to the product modulo `abs(mod)`, each entry below `abs(mod)` in size, and in `[0, mod)` for positive `mod`, even for negative inputs |
| ConjugatePower.MatPowSquare | features/ConjugatePowerView.tsx:26-28 | `(A^2)^k == A^(2k)`: squaring the base and halving the exponent keeps the power |
| ConjugatePower.PowerStep | features/ConjugatePowerView.tsx:25-29 | one pass of the loop keeps `res * base^p` congruent to `A^p0` modulo `abs(mod)` |
| ConjugatePower.MatrixPower | features/ConjugatePowerView.tsx:22-31 | `p <= 0` returns the unreduced identity; `p >= 1` gives a matrix congruent to `A^p`, with entries in `[0, mod)` for positive `mod` |
| ConjugatePower.RecurrenceIsConjugateSum | features/ConjugatePowerView.tsx:56-67 | the recurrence `S_0 = 2`, `S_1 = 2a`, `S_k = 2a S_(k-1) + (b - a^2) S_(k-2)` is twice the rational part of `(a + sqrt b)^n` |
| ConjugatePower.ConjugateIsMirror | features/ConjugatePowerView.tsx:56-67 | `(a - sqrt b)^n` has the same rational part as `(a + sqrt b)^n` and the opposite surd part |
| ConjugatePower.ConjugateSum | features/ConjugatePowerView.tsx:56-67 | the recurrence is `(a + sqrt b)^n + (a - sqrt b)^n`: the rational parts add up to `S_n` and the surd parts cancel |
| ConjugatePower.ExactValue | features/ConjugatePowerView.tsx:56-69 | the rotating loop returns `S_n` |
| ConjugatePower.StepPower | features/ConjugatePowerView.tsx:46-50 | the first row of `T^(n-1)` against `(S_1, S_0)` gives `S_n` |
| ConjugatePower.FirstRowCong | features/ConjugatePowerView.tsx:45-50 | the first row of the reduced power `T^(n-1)` applied to the reduced `(S_1, S_0)` is congruent to `S_n` modulo `abs(c)` |
| ConjugatePower.MatrixRemainder | features/ConjugatePowerView.tsx:45-52 | for `n >= 2` the remainder is congruent to `S_n` modulo `abs(c)`, below `abs(c)` in size, and equal to `S_n mod c` for `c >= 1` |
| ConjugatePower.Solve | features/ConjugatePowerView.tsx:33-79 | shows a result exactly when every field parses, `n >= 0` and `c != 0`; the remainder is congruent to `S_n`, with the `n = 0`, `n = 1` and `n >= 2` formulas; the exact value is shown exactly when `n <= 5000`, equals `S_n` and agrees with the remainder modulo `c` |
| ConjugatePower.FirstRemainderNegative | features/ConjugatePowerView.tsx:44 | for `c >= 1`, and `a < 0` with `2a` not a multiple of `c`, the `n = 1` remainder is negative and differs from `S_1 mod c` |
| ConjugatePower.FirstRemainderExample | features/ConjugatePowerView.tsx:44 | `a = -3, c = 5`: the `n = 1` remainder is `-1` while `S_1 mod 5 == 4` |
| ConjugatePower.IntendedRemainder | features/ConjugatePowerView.tsx:43-52 | with every branch shifted by `c` as the `n >= 2` branch does, the remainder is `S_n mod c` for every `n >= 0` and `c >= 1` |
| DivisorView.DecimalRoundTrip | features/DivisorView.tsx:67 | the decimal string of a natural number reads back to that number |
| DivisorView.IntStringReadsBack | features/DivisorView.tsx:43 | `${x}` starts with a minus sign exactly when `x < 0`, and its digits read back to the magnitude of `x` |
| DivisorView.EndsWithIffConcat | features/DivisorView.tsx:67 | `str.endsWith(suffix)` holds exactly when `str` is some prefix followed by `suffix` |
| DivisorView.Trim | features/DivisorView.tsx:32 | `trim` returns the slice of the input between its leading and trailing ECMAScript white space; the result starts and ends with no white space, and is empty exactly when the input is all white space |
| DivisorView.Filter | features/DivisorView.tsx:59-67 | `filter` keeps exactly the elements satisfying the predicate, never more than the input holds, and keeps a strictly increasing list strictly increasing |
| DivisorView.SumSplits | features/DivisorView.tsx:51-56 | the sum of a list is the sum of its even elements plus the sum of its odd elements |
| DivisorView.DivisorSums | features/DivisorView.tsx:51-56 | the `forEach` accumulation gives the sum of all, even and odd divisors, and `sumAll == sumOdd + sumEven` |
| DivisorView.InRange | features/DivisorView.tsx:59 | the ascending divisors `d` with `m <= d <= n`; empty when either bound does not parse |
| DivisorView.ByK | features/DivisorView.tsx:63 | for a positive `k`, the ascending divisors that `k` divides; empty for `NaN` or `k <= 0` |
| DivisorView.EndingWith | features/DivisorView.tsx:67 | for a non-empty `s`, the ascending divisors whose decimal string ends with `s`; empty for an empty `s` |
| DivisorView.TermsAppend | features/DivisorView.tsx:42-44 | pushing one more term extends the term list by the term of that entry |
| DivisorView.TermReadsBack | features/DivisorView.tsx:43 | the term `${p}^{${exp}}` is the string of `p`, then `^{`, then the digits of `exp`, then `}`; the exponent, and a non-negative base, read back to the entry's values |
| DivisorView.Join | features/DivisorView.tsx:45 | joining no parts gives `""`; one part gives that part; otherwise the result starts with the first part and ends with the last |
| DivisorView.JoinAppend | features/DivisorView.tsx:45 | joining one more part appends the separator and then the part, which is how ECMAScript's `Array.prototype.join` builds its result from left to right |
| DivisorView.FactorTerms | features/DivisorView.tsx:41-44 | the pushed terms are `p^{e}` for the map entries, in insertion order |
| DivisorView.DivisorCount | features/DivisorView.tsx:48 | the length of the divisor list is the number of positive divisors |
| DivisorView.Solve | features/DivisorView.tsx:27-83 | rejects a non-numeric `A` or `A < 1`; otherwise the factor string is the terms of a prime factorisation of `A` joined by ` \cdot `; the count is the number of divisors; the three sums and three filtered lists, with their sums, are as above over the divisors of `A` |

## Left out

- Parsing: `parseInt` and `BigInt` on the text fields are not modelled. Each field
  arrives already parsed, as `Option<int>`, with `None` for `NaN` or a thrown
  `SyntaxError`.
- `Math.floor` and `Math.abs` on `number` are modelled over unbounded integers.
  Fractional input and the 2^53 precision limit of `number` are not modelled.
- Rendering is not modelled: JSX output, React state setters, `alert`,
  `toLocaleString` and the number of equations chosen in the CRT screen (two to
  four). The CRT handler takes any non-empty system.
- Exceptions: `Solve` in each screen returns "nothing shown" where an exception
  ends the handler. The difference between a caught exception with an alert
  (conjugate-power screen) and an uncaught one (CRT screen) is not modelled.
- Other toolkit code is not part of this model:
  - `solveLinearSystem`, which is floating-point;
  - `safeEval` and `evaluatePolynomial`, which evaluate host code;
  - the other screens, the AI services and the `localStorage` history.
- `Factorization.SortAscending` models `Array.prototype.sort` with a numeric
  comparator by its result: an ascending permutation, built by insertion sort.
  The engine's own sorting algorithm is not modelled.
- `ConjugatePower.MatrixPower` passes matrices between `multiply` calls as values.
  The in-place `C` array lives only inside `ConjugatePower.Multiply`; the aliasing
  of `res`/`base` arrays across calls is not modelled.
- `CrtView.Solve`: for a system with a negative modulus, only the cases that show
  nothing are stated. Which lcm and search result appear for such a system, when
  `mulInv` does not throw, is left unstated.
- `CrtView.DigitSearch`: the answer is characterised only for a positive lcm and a
  non-negative window start. The window start `10^(k-1)` always is non-negative;
  a negative modulus is accepted by the code but not characterised.
- `ConjugatePower.ProductCell`: the `k` loop sums into a local variable, and
  `ConjugatePower.Multiply` stores the finished value into `C[i][j]`. The
  half-updated array between the two `k` steps is not modelled.
- `ConjugatePower.Multiply`: with `mod < 0`, entries are only bounded by `|mod|`,
  not placed in a range.

## Findings

| source | as written | input that shows it | evidently intended | confidence | as-written member | corrected member |
|---|---|---|---|---|---|---|
| features/ConjugatePowerView.tsx:44 | the `n = 1` remainder is the truncated `(2a) % c`, not shifted by `c` | `a = -3, b = 7, n = 1, c = 5` shows `-1` | the residue `4` in `[0, c)`, as the `n >= 2` branch (line 51) computes with `(sn + c) % c` | medium; not executed | ConjugatePower.FirstRemainderNegative | ConjugatePower.IntendedRemainder |

`ConjugatePower.Solve` keeps the code's behaviour as written. The corrected remainder
`ConjugatePower.IntendedRemainder` reuses `ConjugatePower.MatrixRemainder` for
`n >= 2` and is proved to give `S_n mod c` for every `n`.
