# Secret recovery from shares by Lagrange interpolation

`Interpretation.js` solves one instance of threshold secret sharing. A test case is a JSON object. Its
reserved entry `keys` holds n, the number of shares, and k, the number of shares needed. Every other
entry maps an x coordinate, written as the entry's key in decimal, to a share value: a digit string
`value` written in the radix `base`.

- `decodeValue(base, value)` is `parseInt(value, parseInt(base))`.
- `readPointsFromJson` turns every non-`keys` entry into a point (x, y) and passes n and k through.
- `findSecretLagrange(points, k)` keeps the first k points. It evaluates the Lagrange form through them
  at x = 0 and rounds the result with `Math.round`.
- `processTestCase` refuses a case with fewer than k points. Otherwise it returns the secret.

The project has four modules:

- `Decoding` (`decoding.dfy`) models `parseInt` on digit strings and models `decodeValue`. This includes
  how the radix argument is resolved: `parseInt(base)`, then ECMAScript ToInt32, then NaN as 0 and 0 as
  10. A radix outside 2..36 gives NaN.
- `Polynomials` (`polynomials.dfy`) holds integer polynomials as coefficient sequences, together with
  the factor theorem and the product of (x - r) over a list of roots.
- `Lagrange` (`lagrange.dfy`) defines the Lagrange basis and the weighted sum by recursion on the loop
  counters of the two loops. It proves that the Lagrange form through the points of a polynomial of
  degree below the number of nodes is that polynomial, for integer and for rational coefficients.
- `Interpretation` (`interpretation.dfy`) models test cases, `readPointsFromJson`, `Array.prototype.slice`,
  `Math.round`, the two loops of `findSecretLagrange` as methods with loop invariants, and
  `processTestCase`. It ends with a worked test case.

A JavaScript number is modelled in one of two ways:

- a `Num` (NaN or an unbounded integer), for what `parseInt` yields;
- a `Value` (NaN or an exact real), for the intermediate values of the interpolation.

NaN propagates through `+`, `-`, `*` and `/` as in the language. So the secret is NaN exactly when the
selected points contain a NaN y, or a NaN x that the basis loop reads. The basis loop reads x only when
at least two points are selected.

Three behaviours of the code are worth stating outright, since each is easy to assume otherwise:

- A share value with characters that are not digits of its base is not an error. `parseInt` reads the
  longest prefix of valid digits, and only an empty prefix gives NaN (`Decoding.ParseIntReadsDigitPrefix`,
  `Decoding.DecodeBinaryPrefix`).
- Two shares with the same x are not reported as an error. In the code they make a division by zero
  (Interpretation.js:49). The model therefore takes distinct x coordinates among the selected points as
  a precondition.
- The points (1, 3), (2, 6), (3, 11) lie on x² + 2, so the secret they give is 2 (`Interpretation.QuadraticSecret`).

## Model

| member | source | states |
|---|---|---|
| Decoding.ParseInt | Interpretation.js:8 | `parseInt(s, radix)` for a radix in 2..36 is NaN exactly when `s` does not start with a digit of the radix; otherwise it is a non-negative integer below radix^(length of the digit prefix) |
| Decoding.HornerIsPositional | Interpretation.js:8 | the left-to-right digit accumulation `parseInt` performs equals the positional value, the sum of digit times radix^position |
| Decoding.ParseIntOfDigitString | Interpretation.js:8 | a non-empty string made only of digits of the radix parses to its positional value |
| Decoding.ParseIntReadsDigitPrefix | Interpretation.js:7-9 | anything after the digit prefix is ignored: `parseInt(s + t) == parseInt(s)` when `t` does not start with a digit |
| Decoding.DecimalRoundTrip | Interpretation.js:23 | writing a natural number in decimal and parsing it with radix 10 gives that number back, which is how share keys become x coordinates |
| Decoding.DecodeValue | Interpretation.js:7-9 | a decoded share is NaN or a non-negative integer, an integer only if the value starts with an alphanumeric character, and NaN whenever the resolved radix is non-zero and outside 2..36 |
| Decoding.RadixOfDecimal | Interpretation.js:8 | a base written in decimal reaches the outer `parseInt` as exactly that radix |
| Decoding.DecodeValueInBase | Interpretation.js:7-9 | for every base b in 2..36 written in decimal and every non-empty digit string of that base, `decodeValue` gives the positional value of the string in base b |
| Decoding.DecodeDecimalRoundTrip | Interpretation.js:7-9 | decoding the decimal representation of a natural number in base "10" gives that number |
| Decoding.DecodeBinaryAllDigits | Interpretation.js:7-9 | "111" in base "2" decodes to 7 |
| Decoding.DecodeBinaryPrefix | Interpretation.js:7-9 | "102" in base "2" decodes to 2: decoding stops at the first non-digit |
| Decoding.DecodeBinaryNoDigits | Interpretation.js:7-9 | "2" in base "2" has no valid digit and decodes to NaN |
| Decoding.RadixArgument | Interpretation.js:8 | the radix passed to the outer `parseInt` is `parseInt(base)` reduced into the signed 32-bit range modulo 2^32, and 0 when `base` has no decimal digit |
| Decoding.MissingBaseIsDecimal | Interpretation.js:24 | a share without `base` passes `undefined`, read as the string "undefined": the radix argument is 0 and the value is read in decimal |
| Decoding.MissingValueDecodes | Interpretation.js:24 | a share without `value` decodes the string "undefined": NaN in every base up to 30, a number in bases 31 to 36 |
| Decoding.ToInt32 | Interpretation.js:8 | the radix conversion lands in the signed 32-bit range and agrees with its argument modulo 2^32 |
| Interpretation.PointOf | Interpretation.js:23-24 | the x of a share is `parseInt(key)` in decimal, NaN exactly when the key does not start with a decimal digit and non-negative otherwise; its y is the decoded value |
| Interpretation.DecimalShare | Interpretation.js:23-24 | an entry whose key and value are the decimal forms of x and y, with base "10", reads as the point (x, y) |
| Interpretation.NonObjectShareIsNaN | Interpretation.js:24 | a share that is a number, string or boolean has no `base` or `value`; both read as the string "undefined", so its y is NaN |
| Interpretation.SharesComplete | Interpretation.js:21-22 | no share is dropped: every entry not named `keys` is among the entries read |
| Interpretation.SharesAppend | Interpretation.js:21-22 | entries are read in order: the shares of two consecutive runs of entries are the two runs' shares, concatenated |
| Interpretation.PointsOf | Interpretation.js:20-27 | the loop pushes one point per share, in order: point i is the reading of the i-th entry not named `keys` |
| Interpretation.ReadPointsFromJson | Interpretation.js:16-29 | n and k are passed through unchanged; there is one point per non-`keys` entry, in entry order, and point i is the decoded key and value of the i-th such entry |
| Interpretation.PointsOfWithoutKeys | Interpretation.js:21-26 | when no entry is named `keys`, every entry gives a point, at the same position |
| Interpretation.ReservedEntrySkipped | Interpretation.js:22 | a `keys` entry anywhere in the object contributes no point and does not disturb the points around it |
| Interpretation.PointsOfAppend | Interpretation.js:21-26 | reading is entry by entry: the points of two consecutive runs of entries are the points of each run, concatenated |
| Interpretation.Slice | Interpretation.js:40 | `points.slice(0, k)` is a prefix of `points` of length min(k, length), and for negative k the length is max(length + k, 0) |
| Interpretation.Round | Interpretation.js:65 | `Math.round(r)` is the integer n with n - 1/2 <= r < n + 1/2, so halves round up |
| Interpretation.RoundUnique | Interpretation.js:65 | that integer is unique |
| Interpretation.RoundOfInteger | Interpretation.js:65 | an integer is its own rounding, n + 1/2 rounds to n + 1, and n - 1/2 rounds to n |
| Interpretation.DistinctNodes | Interpretation.js:42-54 | distinct numeric x coordinates give distinct interpolation nodes, so no denominator `xj - xi` is zero |
| Interpretation.ReadsNaNAll | Interpretation.js:46-51 | the basis loop reads a NaN, either from its own x or from another point's x, exactly when the points hold a NaN x and there are at least two of them |
| Interpretation.LagrangeBasis | Interpretation.js:42-54 | `lagrangeBasis(j, x, points)` is NaN exactly when a NaN x is read; otherwise it is the Lagrange basis polynomial of node j, the product over i != j of (x - xi)/(xj - xi), at x |
| Interpretation.FindSecretLagrange | Interpretation.js:38-66 | the secret is NaN exactly when the first k points contain a NaN that is read; otherwise it lies within 1/2 of the exact Lagrange sum at 0 over the first k points, and it is that sum rounded |
| Interpretation.FirstKPoints | Interpretation.js:39-40 | only the first k points are read: the secret of the points equals the secret of their first k |
| Interpretation.SurplusPointsIgnored | Interpretation.js:39-40 | appending points after the first k does not change the secret |
| Interpretation.SingleShare | Interpretation.js:42-63 | with k = 1 the secret is the first point's y, whatever its x |
| Interpretation.SecretIsConstantTerm | Interpretation.js:32-65 | if the first k points lie on an integer polynomial of degree below k, the secret is that polynomial's constant term |
| Interpretation.ProcessTestCase | Interpretation.js:73-86 | the case fails exactly when fewer points than k were read, whatever their x coordinates, and the failure carries k and the number of points read; otherwise the outcome is the secret of the points read |
| Interpretation.SecretIsScaledConstantTerm | Interpretation.js:32-65 | if the first k points lie on p / d for an integer polynomial p of degree below k and d > 0, which covers every polynomial through k integer points, the secret is the constant term p(0) / d rounded, and exactly that constant when it is an integer |
| Interpretation.HalvesSecret | Interpretation.js:38-66 | the points (1, 5), (2, 6), (3, 8) of (x² - x + 10) / 2, whose coefficients are not all integers, give the secret 5 with k = 3 |
| Interpretation.QuadraticSecret | Interpretation.js:38-66 | the points (1, 3), (2, 6), (3, 11) with k = 3 give the secret 2 |
| Interpretation.QuadraticCaseRead | Interpretation.js:16-29 | a test case with shares "3" in base 10, "110" in base 2, "11" and "38" in base 10, and a `keys` entry between them, reads to the points (1, 3), (2, 6), (3, 11), (6, 38) |
| Interpretation.QuadraticCaseSecret | Interpretation.js:73-86 | that test case has enough points, its first three have distinct x, and its secret is 2 |
| Lagrange.BasisAtNode | Interpretation.js:42-54 | the basis of node j is 1 at xj and 0 at every other node |
| Lagrange.InterpolateAtNode | Interpretation.js:57-63 | the Lagrange form through the points takes the value yt at every node xt |
| Lagrange.SumLinear | Interpretation.js:57-63 | the weighted sum is linear in the y values |
| Lagrange.InterpolationReproduces | Interpretation.js:32-63 | for distinct nodes and values taken from an integer polynomial of degree below the number of nodes, the Lagrange form equals that polynomial at every integer point |
| Lagrange.InterpolationReproducesScaled | Interpretation.js:32-63 | the same for values taken from p / d with p an integer polynomial and d > 0, that is, for any polynomial with rational coefficients: the Lagrange form is p / d at every integer point |
| Polynomials.OmegaNonzeroOffRoots | Interpretation.js:49 | the product of (x - r) over the roots is non-zero away from the roots, so dividing by node differences is defined |

## Left out

- IEEE-754 doubles (Interpretation.js:8, 49, 62). Integers and intermediate values are exact here, so the rounding errors of floating-point division and summation, and values beyond 2^53, are not modelled. `Interpretation.FindSecretLagrange` states the exact sum's rounding, not the floating-point result's.
- Decoding.ParseInt: leading whitespace, a sign, and the `0x` prefix that `parseInt` also accepts are not modelled. Share values and bases are taken as plain digit strings.
- Infinite parse results are not modelled. A decimal digit string so long that `parseInt` would return Infinity is an ordinary integer here.
- The order of `for...in` over the JSON object (Interpretation.js:21) is taken to be the entries' order. JavaScript puts integer-like keys first, in ascending order. That ordering is not modelled.
- Interpretation.LagrangeBasis and Interpretation.FindSecretLagrange require the selected points' numeric x coordinates to be distinct, and so does Interpretation.ProcessTestCase when at least k points were read. With a repeated x among them the code divides by zero (Interpretation.js:49) and returns a non-finite or NaN result rather than an error; that path is not modelled. With fewer than k points no division happens, and the model makes no demand on the x coordinates.
- A missing or null `keys` entry (Interpretation.js:17) or a null share (line 24) raises a TypeError in the code; neither is modelled. A test case carries n and k as integers, and every share carries a key, a base and a value as strings. A missing `base` or `value` reads as `undefined`, which `parseInt` converts to the string "undefined"; passing that string models it (`Decoding.MissingBaseIsDecimal`, `Decoding.MissingValueDecodes`). A share that is a number, string or boolean has neither field, so it reads like a share missing both, as `Entry(key, "undefined", "undefined")`, and its y is NaN (`Interpretation.NonObjectShareIsNaN`).
- The error message text and the `catch` that re-wraps it (Interpretation.js:79, 83-85) are not modelled. The failure is the datatype `InsufficientPoints(need, got)`.
- Interpretation.SecretIsConstantTerm and Lagrange.InterpolationReproduces cover polynomials with integer coefficients only. Interpretation.SecretIsScaledConstantTerm and Lagrange.InterpolationReproducesScaled cover the remaining polynomials through integer points, those with rational coefficients.
- `polynomial.js` is not part of this model.
