/**
 The share-recovery pipeline of `Interpretation.js`: reading a test case into
 points (`readPointsFromJson`), recovering the secret by Lagrange
 interpolation at 0 (`findSecretLagrange`), and the entry point
 (`processTestCase`) that refuses a test case with fewer than k points.

 JavaScript numbers are modelled in two layers: what `parseInt` produces is a
 `Num` (NaN or an integer); the intermediate values of the interpolation are
 `Value`s (NaN or an exact real). Both propagate NaN as the language does.
 */
module Interpretation {
  import opened Decoding
  import opened Polynomials
  import opened Lagrange

  // ---------------------------------------------------------------------------
  // Test cases and points

  /** The name of the reserved entry that holds n and k. */
  const KeysName := "keys"

  /** One member of the test-case object: a share "x": {"base": .., "value": ..}, or the reserved entry. */
  datatype Entry = Entry(key: string, base: string, value: string)

  /**
   A test case: n and k from the reserved entry, and the members of the
   object in iteration order (the reserved entry among them).
   */
  datatype TestCase = TestCase(n: int, k: int, entries: seq<Entry>)

  /** A point [x, y] as the array `points` holds it. */
  datatype Point = Point(x: Num, y: Num)

  /** The result of `readPointsFromJson`. */
  datatype Extracted = Extracted(points: seq<Point>, n: int, k: int)

  datatype CaseError = InsufficientPoints(need: int, got: nat)

  /** What `processTestCase` returns or throws. */
  datatype Outcome = Secret(secret: Num) | Failed(error: CaseError)

  /** x is `parseInt(key)` (radix 10); y is `decodeValue(base, value)`. */
  function PointOf(e: Entry): (pt: Point)
    ensures pt.x.NaN? <==> |e.key| == 0 || !IsDigitIn(e.key[0], 10)
    ensures pt.x.Int? ==> 0 <= pt.x.value
    ensures pt.y == DecodeValue(e.base, e.value)
  {
    Point(ParseInt(e.key, 10), DecodeValue(e.base, e.value))
  }

  /** The share entries: every entry except the reserved one, in order. */
  function Shares(entries: seq<Entry>): (r: seq<Entry>)
    ensures |r| <= |entries|
    ensures forall i :: 0 <= i < |r| ==> r[i] in entries && r[i].key != KeysName
  {
    if |entries| == 0 then []
    else if entries[0].key == KeysName then Shares(entries[1..])
    else [entries[0]] + Shares(entries[1..])
  }

  /** The loop of `readPointsFromJson`: one pushed point per non-reserved entry. */
  function PointsOf(entries: seq<Entry>): (points: seq<Point>)
    ensures |points| == |Shares(entries)|
    ensures forall i :: 0 <= i < |points| ==> points[i] == PointOf(Shares(entries)[i])
  {
    if |entries| == 0 then []
    else if entries[0].key == KeysName then PointsOf(entries[1..])
    else [PointOf(entries[0])] + PointsOf(entries[1..])
  }

  /** `readPointsFromJson(data)`: the points, with n and k passed through. */
  function ReadPointsFromJson(data: TestCase): (r: Extracted)
    ensures r.n == data.n && r.k == data.k
    ensures |r.points| == |Shares(data.entries)|
    ensures forall i :: 0 <= i < |r.points| ==> r.points[i] == PointOf(Shares(data.entries)[i])
  {
    Extracted(PointsOf(data.entries), data.n, data.k)
  }

  /** No share is dropped: every entry not named `keys` is kept. */
  lemma {:induction false} SharesComplete(entries: seq<Entry>)
    ensures forall e :: e in entries && e.key != KeysName ==> e in Shares(entries)
    decreases |entries|
  {
    if |entries| > 0 {
      SharesComplete(entries[1..]);
      forall e | e in entries && e.key != KeysName
        ensures e in Shares(entries)
      {
        if e != entries[0] {
          assert e in entries[1..];
        }
      }
    }
  }

  /** Shares keep entry order: the shares of two consecutive runs are concatenated. */
  lemma {:induction false} SharesAppend(a: seq<Entry>, b: seq<Entry>)
    ensures Shares(a + b) == Shares(a) + Shares(b)
    decreases |a|
  {
    if |a| == 0 {
      assert a + b == b;
    } else {
      assert (a + b)[1..] == a[1..] + b;
      SharesAppend(a[1..], b);
    }
  }

  /** The points of consecutive runs of entries are the consecutive runs of points. */
  lemma {:induction false} PointsOfAppend(a: seq<Entry>, b: seq<Entry>)
    ensures PointsOf(a + b) == PointsOf(a) + PointsOf(b)
    decreases |a|
  {
    hide PointOf;
    if |a| == 0 {
      assert a + b == b;
    } else {
      assert (a + b)[1..] == a[1..] + b;
      PointsOfAppend(a[1..], b);
    }
  }

  /** Without the reserved entry, point i comes from entry i. */
  lemma {:induction false} PointsOfWithoutKeys(entries: seq<Entry>)
    requires forall i :: 0 <= i < |entries| ==> entries[i].key != KeysName
    ensures |PointsOf(entries)| == |entries|
    ensures forall i :: 0 <= i < |entries| ==> PointsOf(entries)[i] == PointOf(entries[i])
    decreases |entries|
  {
    hide PointOf;
    if |entries| > 0 {
      PointsOfWithoutKeys(entries[1..]);
    }
  }

  /** The reserved entry contributes no point, wherever it sits. */
  lemma ReservedEntrySkipped(before: seq<Entry>, reserved: Entry, after: seq<Entry>)
    requires reserved.key == KeysName
    ensures PointsOf(before + [reserved] + after) == PointsOf(before) + PointsOf(after)
  {
    var mid := before + [reserved];
    PointsOfAppend(mid, after);
    PointsOfAppend(before, [reserved]);
    assert [reserved][1..] == [];
    assert PointsOf([reserved]) == PointsOf([]) == [];
    assert PointsOf(mid) == PointsOf(before);
  }

  // ---------------------------------------------------------------------------
  // JavaScript arithmetic

  /** `points.slice(0, k)`: a negative k counts back from the end. */
  function Slice<T>(s: seq<T>, k: int): (r: seq<T>)
    ensures k >= 0 ==> |r| == (if k <= |s| then k else |s|)
    ensures k < 0 ==> |r| == (if |s| + k >= 0 then |s| + k else 0)
    ensures r == s[..|r|]
  {
    if k >= 0 then (if k <= |s| then s[..k] else s)
    else (if |s| + k >= 0 then s[..|s| + k] else [])
  }

  /** `Math.round`: the nearest integer, halves rounded up. */
  function Round(r: real): (n: int)
    ensures n as real - 0.5 <= r < n as real + 0.5
  {
    (r + 0.5).Floor
  }

  /** The nearest integer is unique, so Round of an integer is that integer. */
  lemma RoundUnique(r: real, n: int)
    requires n as real - 0.5 <= r < n as real + 0.5
    ensures Round(r) == n
  {
    var m := Round(r);
    assert m as real - n as real < 1.0 && n as real - m as real < 1.0;
  }

  lemma RoundOfInteger(n: int)
    ensures Round(n as real) == n
    ensures Round(n as real + 0.5) == n + 1
    ensures Round(n as real - 0.5) == n
  {
    RoundUnique(n as real, n);
    RoundUnique(n as real + 0.5, n + 1);
    RoundUnique(n as real - 0.5, n);
  }

  /** An intermediate JavaScript number of the interpolation. */
  datatype Value = NaNValue | Real(r: real)

  function ValueOf(v: Num): Value {
    if v.NaN? then NaNValue else Real(v.value as real)
  }

  function Plus(a: Value, b: Value): Value {
    if a.NaNValue? || b.NaNValue? then NaNValue else Real(a.r + b.r)
  }

  function Minus(a: Value, b: Value): Value {
    if a.NaNValue? || b.NaNValue? then NaNValue else Real(a.r - b.r)
  }

  function Times(a: Value, b: Value): Value {
    if a.NaNValue? || b.NaNValue? then NaNValue else Real(a.r * b.r)
  }

  /** Division; a zero divisor is excluded by the distinct x coordinates. */
  function Over(a: Value, b: Value): Value
    requires b.Real? ==> b.r != 0.0
  {
    if a.NaNValue? || b.NaNValue? then NaNValue else Real(a.r / b.r)
  }

  // ---------------------------------------------------------------------------
  // The selected points as nodes and values

  /** A coordinate as a node or value; NaN coordinates only ever reach a NaN result. */
  function Coord(v: Num): int {
    if v.NaN? then 0 else v.value
  }

  function Xs(points: seq<Point>): (xs: seq<int>)
    ensures |xs| == |points|
    ensures forall i :: 0 <= i < |points| ==> xs[i] == Coord(points[i].x)
  {
    seq(|points|, i requires 0 <= i < |points| => Coord(points[i].x))
  }

  function Ys(points: seq<Point>): (ys: seq<real>)
    ensures |ys| == |points|
    ensures forall i :: 0 <= i < |points| ==> ys[i] == Coord(points[i].y) as real
  {
    seq(|points|, i requires 0 <= i < |points| => Coord(points[i].y) as real)
  }

  /** The x coordinates that are numbers are pairwise different. */
  predicate DistinctX(points: seq<Point>) {
    forall i, j :: 0 <= i < j < |points| && points[i].x.Int? && points[j].x.Int? ==>
      points[i].x.value != points[j].x.value
  }

  /** Some x is NaN and is read: with one point the basis loop never reads x. */
  predicate XNaN(points: seq<Point>) {
    |points| >= 2 && exists i :: 0 <= i < |points| && points[i].x.NaN?
  }

  predicate YNaN(points: seq<Point>) {
    exists i :: 0 <= i < |points| && points[i].y.NaN?
  }

  predicate HasNaN(points: seq<Point>) {
    XNaN(points) || YNaN(points)
  }

  /** Without a NaN that is read, the nodes are the distinct x coordinates. */
  lemma DistinctNodes(points: seq<Point>)
    requires DistinctX(points) && !XNaN(points)
    ensures Distinct(Xs(points))
  {
    var xs := Xs(points);
    forall j | 0 <= j < |xs|
      ensures Apart(xs, j)
    {
      forall i | 0 <= i < |xs| && i != j
        ensures xs[i] != xs[j]
      {
        if i < j {
          assert points[i].x.value != points[j].x.value;
        } else {
          assert points[j].x.value != points[i].x.value;
        }
      }
    }
  }

  /** The exact sum over the points, in real arithmetic, that `result` approximates. */
  function ExactSum(points: seq<Point>): real
    requires DistinctX(points) && !XNaN(points)
  {
    DistinctNodes(points);
    Interpolate(Xs(points), Ys(points), 0)
  }

  /**
   The secret `findSecretLagrange(points, k)` returns: NaN when a NaN is
   read, otherwise the exact sum over the first k points, rounded.
   */
  function SecretOf(points: seq<Point>, k: int): Num
    requires DistinctX(Slice(points, k))
  {
    var selected := Slice(points, k);
    if HasNaN(selected) then NaN else Int(Round(ExactSum(selected)))
  }

  // ---------------------------------------------------------------------------
  // findSecretLagrange

  /** Some y among the first n points is NaN: `result` after n iterations of the outer loop reads it. */
  predicate YNaNBefore(points: seq<Point>, n: nat)
    requires n <= |points|
    decreases n
  {
    n > 0 && (YNaNBefore(points, n - 1) || points[n - 1].y.NaN?)
  }

  lemma {:induction false} YNaNBeforeAll(points: seq<Point>, n: nat)
    requires n <= |points|
    ensures YNaNBefore(points, n) <==> exists t :: 0 <= t < n && points[t].y.NaN?
    ensures n == |points| ==> (YNaNBefore(points, n) <==> YNaN(points))
    decreases n
  {
    if n > 0 {
      YNaNBeforeAll(points, n - 1);
      if points[n - 1].y.NaN? {
        assert 0 <= n - 1 < n && points[n - 1].y.NaN?;
      }
      if exists t :: 0 <= t < n && points[t].y.NaN? {
        var t :| 0 <= t < n && points[t].y.NaN?;
        if t < n - 1 {
          assert 0 <= t < n - 1 && points[t].y.NaN?;
        }
      }
    }
  }

  /** Some factor i != j with i < n reads a NaN x (its own or x_j): `basis` after n iterations is NaN. */
  predicate ReadsNaN(points: seq<Point>, j: nat, n: nat)
    requires j < |points| && n <= |points|
    decreases n
  {
    n > 0 && (ReadsNaN(points, j, n - 1) || (n - 1 != j && (points[n - 1].x.NaN? || points[j].x.NaN?)))
  }

  /** A factor that reads a NaN makes every longer run read one. */
  lemma {:induction false} ReadsNaNAt(points: seq<Point>, j: nat, n: nat, t: nat)
    requires j < |points| && n <= |points| && t < n && t != j
    requires points[t].x.NaN? || points[j].x.NaN?
    ensures ReadsNaN(points, j, n)
    decreases n
  {
    if t < n - 1 {
      ReadsNaNAt(points, j, n - 1, t);
    }
  }

  /** A run that reads a NaN has a factor that reads it. */
  lemma {:induction false} ReadsNaNWitness(points: seq<Point>, j: nat, n: nat) returns (t: nat)
    requires j < |points| && n <= |points| && ReadsNaN(points, j, n)
    ensures t < n && t != j && (points[t].x.NaN? || points[j].x.NaN?)
    decreases n
  {
    if n - 1 != j && (points[n - 1].x.NaN? || points[j].x.NaN?) {
      t := n - 1;
    } else {
      t := ReadsNaNWitness(points, j, n - 1);
    }
  }

  /** Over all points, a NaN is read exactly when some x is NaN and there are two points or more. */
  lemma ReadsNaNAll(points: seq<Point>, j: nat)
    requires j < |points|
    ensures ReadsNaN(points, j, |points|) <==> XNaN(points)
  {
    if XNaN(points) {
      var t :| 0 <= t < |points| && points[t].x.NaN?;
      if t == j {
        ReadsNaNAt(points, j, |points|, if j == 0 then 1 else 0);
      } else {
        ReadsNaNAt(points, j, |points|, t);
      }
    }
    if ReadsNaN(points, j, |points|) {
      var t := ReadsNaNWitness(points, j, |points|);
      if points[t].x.NaN? {
        assert 0 <= t < |points| && points[t].x.NaN?;
      } else {
        assert 0 <= j < |points| && points[j].x.NaN?;
      }
    }
  }

  /**
   `lagrangeBasis(j, x, points)`: the product over i != j of
   (x - x_i) / (x_j - x_i), NaN exactly when a NaN x is read.
   */
  method LagrangeBasis(j: nat, x: int, points: seq<Point>) returns (basis: Value)
    requires j < |points| && DistinctX(points)
    ensures basis.NaNValue? <==> XNaN(points)
    ensures !XNaN(points) ==> Distinct(Xs(points)) && basis == Real(Basis(Xs(points), j, x))
  {
    var xs := Xs(points);
    var clean := !XNaN(points);
    if clean {
      DistinctNodes(points);
      DistinctApart(xs, j);
    }
    basis := Real(1.0);
    var xj := ValueOf(points[j].x);
    var i := 0;
    while i < |points|
      invariant 0 <= i <= |points|
      invariant basis.NaNValue? <==> ReadsNaN(points, j, i)
      invariant clean ==> basis == Real(BasisUpTo(xs, j, x, i))
    {
      if i != j {
        var xi := ValueOf(points[i].x);
        if xi.Real? && xj.Real? {
          if i < j {
            assert points[i].x.value != points[j].x.value;
          } else {
            assert points[j].x.value != points[i].x.value;
          }
        }
        basis := Times(basis, Over(Minus(Real(x as real), xi), Minus(xj, xi)));
      }
      i := i + 1;
    }
    ReadsNaNAll(points, j);
  }

  /**
   `findSecretLagrange(points, k)`: the weighted sum over the first k
   points, evaluated at x = 0 and rounded. The result is NaN exactly when a
   NaN is read; otherwise it is the integer nearest the exact sum.
   */
  method FindSecretLagrange(points: seq<Point>, k: int) returns (secret: Num)
    requires DistinctX(Slice(points, k))
    ensures secret.NaN? <==> HasNaN(Slice(points, k))
    ensures secret.Int? ==>
      secret.value as real - 0.5 <= ExactSum(Slice(points, k)) < secret.value as real + 0.5
    ensures secret == SecretOf(points, k)
  {
    var selected := Slice(points, k);
    var xs := Xs(selected);
    var ys := Ys(selected);
    var clean := !XNaN(selected);
    if clean {
      DistinctNodes(selected);
    }
    var result := Real(0.0);
    var j := 0;
    while j < |selected|
      invariant 0 <= j <= |selected|
      invariant result.NaNValue? <==> j > 0 && (XNaN(selected) || YNaNBefore(selected, j))
      invariant clean ==> result.NaNValue? || result == Real(SumUpTo(xs, ys, 0, j))
    {
      var yj := ValueOf(selected[j].y);
      var basis := LagrangeBasis(j, 0, selected);
      result := Plus(result, Times(yj, basis));
      if clean {
        SumUpToStep(xs, ys, 0, j + 1);
      }
      j := j + 1;
    }
    YNaNBeforeAll(selected, |selected|);
    if result.NaNValue? {
      secret := NaN;
    } else {
      secret := Int(Round(result.r));
    }
  }

  // ---------------------------------------------------------------------------
  // processTestCase

  /**
   The x coordinates of the points interpolation would read are different.
   Only the path that reaches `findSecretLagrange` divides by their differences.
   */
  predicate SelectedDistinct(data: TestCase) {
    var r := ReadPointsFromJson(data);
    DistinctX(Slice(r.points, r.k))
  }

  /**
   `processTestCase(data)`: fails with the needed and the available count
   when there are fewer points than k; otherwise the secret of the points.
   */
  method ProcessTestCase(data: TestCase) returns (outcome: Outcome)
    requires |ReadPointsFromJson(data).points| >= data.k ==> SelectedDistinct(data)
    ensures var r := ReadPointsFromJson(data);
      outcome.Failed? <==> |r.points| < data.k
    ensures outcome.Failed? ==>
      outcome.error == InsufficientPoints(data.k, |Shares(data.entries)|)
    ensures outcome.Secret? ==>
      outcome.secret == SecretOf(ReadPointsFromJson(data).points, data.k)
  {
    var r := ReadPointsFromJson(data);
    if |r.points| < r.k {
      return Failed(InsufficientPoints(r.k, |r.points|));
    }
    var s := FindSecretLagrange(r.points, r.k);
    return Secret(s);
  }

  // ---------------------------------------------------------------------------
  // Properties of the secret

  /** Only the first k points are read: dropping the rest changes nothing. */
  lemma FirstKPoints(points: seq<Point>, k: nat)
    requires k <= |points| && DistinctX(points[..k])
    ensures Slice(points[..k], k) == Slice(points, k)
    ensures SecretOf(points, k) == SecretOf(points[..k], k)
  {
    assert points[..k][..k] == points[..k];
  }

  /** Surplus points after the first k do not change the secret. */
  lemma SurplusPointsIgnored(points: seq<Point>, extra: seq<Point>, k: nat)
    requires k <= |points| && DistinctX(points[..k])
    ensures Slice(points + extra, k) == Slice(points, k)
    ensures SecretOf(points + extra, k) == SecretOf(points, k)
  {
    assert (points + extra)[..k] == points[..k];
  }

  /** With k = 1 the secret is the first y, whatever its x. */
  lemma SingleShare(points: seq<Point>)
    requires |points| >= 1
    ensures DistinctX(Slice(points, 1))
    ensures SecretOf(points, 1) == points[0].y
  {
    var selected := Slice(points, 1);
    assert selected == [points[0]];
    if points[0].y.Int? {
      var y := points[0].y.value;
      DistinctNodes(selected);
      var xs := Xs(selected);
      var ys := Ys(selected);
      assert Basis(xs, 0, 0) == 1.0 by {
        assert BasisUpTo(xs, 0, 0, 1) == BasisUpTo(xs, 0, 0, 0);
      }
      assert ExactSum(selected) == y as real;
      RoundOfInteger(y);
    }
  }

  /**
   If the first k points are points of an integer polynomial with at most k
   coefficients (degree below k), the secret is its constant term.
   */
  lemma SecretIsConstantTerm(points: seq<Point>, k: nat, p: seq<int>)
    requires |p| <= k <= |points|
    requires DistinctX(points[..k])
    requires forall i :: 0 <= i < k ==> points[i].x.Int? && points[i].y.Int?
    requires forall i :: 0 <= i < k ==> points[i].y.value == Eval(p, points[i].x.value)
    ensures SecretOf(points, k) == Int(if |p| == 0 then 0 else p[0])
  {
    var selected := Slice(points, k);
    assert selected == points[..k];
    assert !XNaN(selected) && !YNaN(selected);
    DistinctNodes(selected);
    var xs := Xs(selected);
    var ys := Ys(selected);
    assert forall i {:trigger ys[i]} :: 0 <= i < |xs| ==> ys[i] == Eval(p, xs[i]) as real;
    InterpolationReproduces(xs, ys, p, 0);
    EvalAtZero(p);
    RoundOfInteger(Eval(p, 0));
  }

  /** Numeric points with distinct x: the first k are selected and hold no NaN. */
  lemma CleanPrefix(points: seq<Point>, k: nat)
    requires k <= |points|
    requires forall i :: 0 <= i < k ==> points[i].x.Int? && points[i].y.Int?
    ensures Slice(points, k) == points[..k] && !HasNaN(points[..k]) && !XNaN(points[..k])
  {
    assert !XNaN(points[..k]) && !YNaN(points[..k]);
  }

  /** On points of p / d, d times each value interpolation reads is p at the node. */
  lemma ScaledValues(points: seq<Point>, k: nat, p: seq<int>, d: int)
    requires k <= |points|
    requires forall i :: 0 <= i < k ==> points[i].x.Int? && points[i].y.Int?
    requires forall i :: 0 <= i < k ==> d * points[i].y.value == Eval(p, points[i].x.value)
    ensures forall i {:trigger Ys(points[..k])[i]} :: 0 <= i < k ==>
      d as real * Ys(points[..k])[i] == Eval(p, Xs(points[..k])[i]) as real
  {
    forall i | 0 <= i < k
      ensures d as real * Ys(points[..k])[i] == Eval(p, Xs(points[..k])[i]) as real
    {
      assert points[..k][i] == points[i];
      ScaledValueAt(points[i], p, d);
    }
  }

  /** On points of p / d, d times the exact sum at 0 is p's constant term. */
  lemma ScaledExactSum(points: seq<Point>, k: nat, p: seq<int>, d: int)
    requires |p| <= k <= |points| && d > 0
    requires DistinctX(points[..k])
    requires forall i :: 0 <= i < k ==> points[i].x.Int? && points[i].y.Int?
    requires forall i :: 0 <= i < k ==> d * points[i].y.value == Eval(p, points[i].x.value)
    ensures Slice(points, k) == points[..k] && !HasNaN(points[..k]) && !XNaN(points[..k])
    ensures d as real * ExactSum(points[..k]) == (if |p| == 0 then 0 else p[0]) as real
  {
    hide *;
    CleanPrefix(points, k);
    ScaledValues(points, k, p, d);
    ExactSumIsInterpolation(points[..k]);
    InterpolationReproducesScaled(Xs(points[..k]), Ys(points[..k]), p, d, 0);
    EvalAtZero(p);
  }

  /** One point of p / d, in the real coordinates interpolation reads. */
  lemma ScaledValueAt(pt: Point, p: seq<int>, d: int)
    requires pt.x.Int? && pt.y.Int? && d * pt.y.value == Eval(p, pt.x.value)
    ensures d as real * Coord(pt.y) as real == Eval(p, Coord(pt.x)) as real
  {
    CastMul(d, pt.y.value);
  }

  lemma ExactSumIsInterpolation(points: seq<Point>)
    requires DistinctX(points) && !HasNaN(points)
    ensures Distinct(Xs(points)) && ExactSum(points) == Interpolate(Xs(points), Ys(points), 0)
  {
    DistinctNodes(points);
  }

  lemma SecretOfClean(points: seq<Point>, k: int)
    requires DistinctX(Slice(points, k)) && !HasNaN(Slice(points, k))
    ensures SecretOf(points, k) == Int(Round(ExactSum(Slice(points, k))))
  {
  }

  lemma DivideOut(d: real, e: real, c: real)
    requires d > 0.0 && d * e == c
    ensures e == c / d
  {
  }

  lemma ExactQuotient(c: int, d: int)
    requires d > 0 && c % d == 0
    ensures (c / d) as real == c as real / d as real
  {
    CastMul(c / d, d);
  }

  /**
   The general case: if the first k points lie on p / d for an integer
   polynomial p with at most k coefficients and d > 0, the secret is the
   constant term of p / d rounded, and exactly that constant when it is an
   integer.
   */
  lemma SecretIsScaledConstantTerm(points: seq<Point>, k: nat, p: seq<int>, d: int)
    requires |p| <= k <= |points| && d > 0
    requires DistinctX(points[..k])
    requires forall i :: 0 <= i < k ==> points[i].x.Int? && points[i].y.Int?
    requires forall i :: 0 <= i < k ==> d * points[i].y.value == Eval(p, points[i].x.value)
    ensures var c := if |p| == 0 then 0 else p[0];
      SecretOf(points, k) == Int(Round(c as real / d as real))
    ensures var c := if |p| == 0 then 0 else p[0];
      c % d == 0 ==> SecretOf(points, k) == Int(c / d)
  {
    hide *;
    var c := if |p| == 0 then 0 else p[0];
    ScaledExactSum(points, k, p, d);
    SecretOfClean(points, k);
    DivideOut(d as real, ExactSum(points[..k]), c as real);
    if c % d == 0 {
      ExactQuotient(c, d);
      RoundOfInteger(c / d);
    }
  }

  // ---------------------------------------------------------------------------
  // A worked test case

  /** The points (1, 3), (2, 6), (3, 11) of x^2 + 2, in that order. */
  const QuadraticPoints := [Point(Int(1), Int(3)), Point(Int(2), Int(6)), Point(Int(3), Int(11))]

  /** With k = 3, the three points of x^2 + 2 give the secret 2. */
  lemma QuadraticSecret()
    ensures SecretOf(QuadraticPoints, 3) == Int(2)
  {
    var p := [2, 0, 1];
    assert Eval(p, 1) == 3 && Eval(p, 2) == 6 && Eval(p, 3) == 11;
    assert QuadraticPoints[..3] == QuadraticPoints;
    SecretIsConstantTerm(QuadraticPoints, 3, p);
  }

  /** The points (1, 5), (2, 6), (3, 8) of (x^2 - x + 10) / 2, whose coefficients are not all integers. */
  const HalvesPoints := [Point(Int(1), Int(5)), Point(Int(2), Int(6)), Point(Int(3), Int(8))]

  /** With k = 3 they give the secret 5. */
  lemma HalvesSecret()
    ensures SecretOf(HalvesPoints, 3) == Int(5)
  {
    var p := [10, -1, 1];
    assert Eval(p, 1) == 10 && Eval(p, 2) == 12 && Eval(p, 3) == 16;
    assert HalvesPoints[..3] == HalvesPoints;
    SecretIsScaledConstantTerm(HalvesPoints, 3, p, 2);
  }

  /** Shares written in base 10 and in base 2, read before the reserved entry. */
  const FirstEntries := [Entry("1", "10", "3"), Entry("2", "2", "110")]

  /** The last share, (6, 38), is a surplus fourth point of x^2 + 2. */
  const LastEntries := [Entry("3", "10", "11"), Entry("6", "10", "38")]

  const KeysEntry := Entry(KeysName, "", "")

  /** A test case with n = 4 and k = 3 whose reserved entry sits between the shares. */
  const QuadraticCase := TestCase(4, 3, FirstEntries + [KeysEntry] + LastEntries)

  /**
   A share that is a number, a string or a boolean has no `base` and no
   `value` field: both read as `undefined`, which `parseInt` turns into the
   string "undefined". Its y is NaN, since "undefined" read in decimal has
   no digit.
   */
  lemma NonObjectShareIsNaN(key: string)
    ensures PointOf(Entry(key, "undefined", "undefined")).y == NaN
  {
    MissingBaseIsDecimal("undefined");
    assert !IsDigitIn("undefined"[0], 10);
  }

  /** A share with a decimal key and a value written in base 10. */
  lemma DecimalShare(x: nat, y: nat)
    ensures PointOf(Entry(ToDecimal(x), "10", ToDecimal(y))) == Point(Int(x), Int(y))
  {
    DecimalRoundTrip(x);
    DecodeDecimalRoundTrip(y);
  }

  lemma ShareOne()
    ensures PointOf(Entry("1", "10", "3")) == Point(Int(1), Int(3))
  {
    assert ToDecimal(1) == "1" && ToDecimal(3) == "3";
    DecimalShare(1, 3);
  }

  /** "110" in base 2 is 6. */
  lemma BinarySix()
    ensures DecodeValue("2", "110") == Int(6)
  {
    assert ToDecimal(2) == "2";
    assert AllDigits("110", 2);
    DecodeValueInBase(2, "110");
    assert Positional("110", 2) == 6;
  }

  lemma ShareTwo()
    ensures PointOf(Entry("2", "2", "110")) == Point(Int(2), Int(6))
  {
    assert ToDecimal(2) == "2";
    DecimalRoundTrip(2);
    BinarySix();
  }

  lemma ShareThree()
    ensures PointOf(Entry("3", "10", "11")) == Point(Int(3), Int(11))
  {
    assert ToDecimal(3) == "3" && ToDecimal(11) == "11";
    DecimalShare(3, 11);
  }

  lemma ShareSix()
    ensures PointOf(Entry("6", "10", "38")) == Point(Int(6), Int(38))
  {
    assert ToDecimal(6) == "6" && ToDecimal(38) == "38";
    DecimalShare(6, 38);
  }

  lemma TwoShares(a: Entry, b: Entry)
    requires a.key != KeysName && b.key != KeysName
    ensures PointsOf([a, b]) == [PointOf(a), PointOf(b)]
  {
    PointsOfWithoutKeys([a, b]);
  }

  /** The reserved entry is skipped, and every share becomes a point, in order. */
  lemma QuadraticCaseRead()
    ensures ReadPointsFromJson(QuadraticCase).points == QuadraticPoints + [Point(Int(6), Int(38))]
  {
    hide PointOf, ReadPointsFromJson, Shares, DecodeValue, ParseInt;
    ReadPointsOfEntries(QuadraticCase);
    ReservedEntrySkipped(FirstEntries, KeysEntry, LastEntries);
    TwoShares(Entry("1", "10", "3"), Entry("2", "2", "110"));
    TwoShares(Entry("3", "10", "11"), Entry("6", "10", "38"));
    ShareOne();
    ShareTwo();
    ShareThree();
    ShareSix();
  }

  lemma ReadPointsOfEntries(data: TestCase)
    ensures ReadPointsFromJson(data).points == PointsOf(data.entries)
  {
  }

  /** The worked test case has enough points, and its secret is 2. */
  lemma QuadraticCaseSecret()
    ensures |ReadPointsFromJson(QuadraticCase).points| >= QuadraticCase.k
    ensures SelectedDistinct(QuadraticCase)
    ensures SecretOf(ReadPointsFromJson(QuadraticCase).points, QuadraticCase.k) == Int(2)
  {
    QuadraticCaseRead();
    QuadraticSecret();
    SurplusPointsIgnored(QuadraticPoints, [Point(Int(6), Int(38))], 3);
  }
}
