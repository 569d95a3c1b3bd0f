/**
 Lagrange interpolation as `findSecretLagrange` computes it, in exact real
 arithmetic over integer nodes. For distinct nodes xs and values ys:

   Basis(xs, j, z)        = product over i != j of (z - xs[i]) / (xs[j] - xs[i])
   Interpolate(xs, ys, z) = sum over j of ys[j] * Basis(xs, j, z)

 Both are defined by recursion on a prefix length, following the two loops
 of `findSecretLagrange` in Interpretation.js (the inner `i` loop of
 `lagrangeBasis` and the outer `j` loop that accumulates `result`). The main theorem says that when the
 values come from a polynomial of degree less than the number of nodes, the
 Lagrange form reproduces that polynomial.
 */
module Lagrange {
  import opened Polynomials

  /** Node j differs from every other node. */
  predicate Apart(xs: seq<int>, j: nat)
    requires j < |xs|
  {
    forall i :: 0 <= i < |xs| && i != j ==> xs[i] != xs[j]
  }

  /** No two nodes coincide. Stated node by node, so that each use unfolds one node's fact at a time. */
  predicate Distinct(xs: seq<int>) {
    forall j :: 0 <= j < |xs| ==> Apart(xs, j)
  }

  /** The factor (z - xs[i]) / (xs[j] - xs[i]) that node i contributes to basis j. */
  function Factor(xs: seq<int>, j: nat, i: nat, z: int): real
    requires j < |xs| && i < |xs| && i != j && Apart(xs, j)
  {
    (z - xs[i]) as real / (xs[j] - xs[i]) as real
  }

  /** The product of the factors for i < n, i != j: `basis` after n iterations of `lagrangeBasis`. */
  function BasisUpTo(xs: seq<int>, j: nat, z: int, n: nat): real
    requires j < |xs| && n <= |xs| && Apart(xs, j)
    decreases n
  {
    if n == 0 then 1.0
    else if n - 1 == j then BasisUpTo(xs, j, z, n - 1)
    else BasisUpTo(xs, j, z, n - 1) * Factor(xs, j, n - 1, z)
  }

  /** The Lagrange basis polynomial for node j, evaluated at z. */
  function Basis(xs: seq<int>, j: nat, z: int): real
    requires j < |xs| && Apart(xs, j)
  {
    BasisUpTo(xs, j, z, |xs|)
  }

  /** The weighted sum over the first n nodes: `result` after n iterations. */
  function SumUpTo(xs: seq<int>, ys: seq<real>, z: int, n: nat): real
    requires Distinct(xs) && |ys| == |xs| && n <= |xs|
    decreases n
  {
    if n == 0 then 0.0 else SumUpTo(xs, ys, z, n - 1) + ys[n - 1] * Basis(xs, n - 1, z)
  }

  /** The Lagrange form through (xs[j], ys[j]), evaluated at z. */
  function Interpolate(xs: seq<int>, ys: seq<real>, z: int): real
    requires Distinct(xs) && |ys| == |xs|
  {
    SumUpTo(xs, ys, z, |xs|)
  }

  // ---------------------------------------------------------------------------
  // The basis at the nodes

  lemma FactorAtNodes(xs: seq<int>, j: nat, i: nat)
    requires j < |xs| && i < |xs| && i != j && Apart(xs, j)
    ensures Factor(xs, j, i, xs[j]) == 1.0
    ensures Factor(xs, j, i, xs[i]) == 0.0
  {
    var d := (xs[j] - xs[i]) as real;
    assert xs[i] != xs[j];
    assert d / d == 1.0;
  }

  lemma {:induction false} BasisUpToAtNode(xs: seq<int>, j: nat, t: nat, n: nat)
    requires j < |xs| && t < |xs| && n <= |xs| && Apart(xs, j)
    ensures t == j ==> BasisUpTo(xs, j, xs[t], n) == 1.0
    ensures t != j && t < n ==> BasisUpTo(xs, j, xs[t], n) == 0.0
    decreases n
  {
    if n > 0 {
      BasisUpToAtNode(xs, j, t, n - 1);
      if n - 1 != j {
        FactorAtNodes(xs, j, n - 1);
      }
    }
  }

  /** Basis j is 1 at its own node and 0 at every other node. */
  lemma BasisAtNode(xs: seq<int>, j: nat, t: nat)
    requires j < |xs| && t < |xs| && Apart(xs, j)
    ensures Basis(xs, j, xs[t]) == (if t == j then 1.0 else 0.0)
  {
    BasisUpToAtNode(xs, j, t, |xs|);
  }

  lemma {:induction false} SumUpToAtNode(xs: seq<int>, ys: seq<real>, t: nat, n: nat)
    requires Distinct(xs) && |ys| == |xs| && t < |xs| && n <= |xs|
    ensures SumUpTo(xs, ys, xs[t], n) == (if t < n then ys[t] else 0.0)
    decreases n
  {
    if n > 0 {
      SumUpToAtNode(xs, ys, t, n - 1);
      BasisAtNode(xs, n - 1, t);
    }
  }

  /** The Lagrange form passes through every node: its value at xs[t] is ys[t]. */
  lemma InterpolateAtNode(xs: seq<int>, ys: seq<real>, t: nat)
    requires Distinct(xs) && |ys| == |xs| && t < |xs|
    ensures Interpolate(xs, ys, xs[t]) == ys[t]
  {
    SumUpToAtNode(xs, ys, t, |xs|);
  }

  // ---------------------------------------------------------------------------
  // Structural facts about the sum

  /** One iteration of the outer loop adds the next weighted basis value. */
  lemma SumUpToStep(xs: seq<int>, ys: seq<real>, z: int, n: nat)
    requires Distinct(xs) && |ys| == |xs| && 0 < n <= |xs|
    ensures SumUpTo(xs, ys, z, n) == SumUpTo(xs, ys, z, n - 1) + ys[n - 1] * Basis(xs, n - 1, z)
  {
  }

  /** The sum is linear in the values. */
  lemma {:induction false} SumLinear(xs: seq<int>, ys: seq<real>, u: seq<real>, v: seq<real>,
                                     alpha: real, beta: real, z: int, n: nat)
    requires Distinct(xs) && |ys| == |xs| && n <= |xs|
    requires Combines(ys, u, v, alpha, beta)
    ensures SumUpTo(xs, ys, z, n) == Combination(alpha, SumUpTo(xs, u, z, n), beta, SumUpTo(xs, v, z, n))
    decreases n
  {
    if n > 0 {
      hide *;
      SumUpToStep(xs, ys, z, n);
      SumUpToStep(xs, u, z, n);
      SumUpToStep(xs, v, z, n);
      DistinctApart(xs, n - 1);
      SumLinear(xs, ys, u, v, alpha, beta, z, n - 1);
      CombinesAt(ys, u, v, alpha, beta, n - 1);
      LinearStep(SumUpTo(xs, ys, z, n - 1), SumUpTo(xs, u, z, n - 1), SumUpTo(xs, v, z, n - 1),
                 ys[n - 1], u[n - 1], v[n - 1], Basis(xs, n - 1, z), alpha, beta);
    }
  }

  lemma LinearStep(sy: real, su: real, sv: real, y: real, u: real, v: real, b: real, alpha: real, beta: real)
    requires sy == Combination(alpha, su, beta, sv) && y == Combination(alpha, u, beta, v)
    ensures sy + y * b == Combination(alpha, su + u * b, beta, sv + v * b)
  {
  }

  lemma DistinctApart(xs: seq<int>, j: nat)
    requires Distinct(xs) && j < |xs|
    ensures Apart(xs, j)
  {
  }

  lemma ApartAt(xs: seq<int>, j: nat, i: nat)
    requires j < |xs| && i < |xs| && i != j && Apart(xs, j)
    ensures xs[i] != xs[j]
  {
  }

  /** Dropping trailing nodes keeps the remaining ones apart. */
  lemma DistinctPrefix(xs: seq<int>, m: nat)
    requires Distinct(xs) && m <= |xs|
    ensures Distinct(xs[..m])
  {
    forall j | 0 <= j < m
      ensures Apart(xs[..m], j)
    {
      assert Apart(xs, j);
    }
  }

  /** Before the last node is reached, a basis over xs reads only the nodes before it. */
  lemma {:induction false} BasisUpToPrefix(xs: seq<int>, m: nat, j: nat, z: int, n: nat)
    requires Distinct(xs) && m <= |xs| && j < m && n <= m
    ensures Distinct(xs[..m])
    ensures BasisUpTo(xs, j, z, n) == BasisUpTo(xs[..m], j, z, n)
    decreases n
  {
    DistinctPrefix(xs, m);
    if n > 0 {
      BasisUpToPrefix(xs, m, j, z, n - 1);
      if n - 1 != j {
        assert Factor(xs, j, n - 1, z) == Factor(xs[..m], j, n - 1, z);
      }
    }
  }

  /** Adding a last node multiplies each earlier basis by that node's factor. */
  lemma BasisExtend(xs: seq<int>, j: nat, z: int)
    requires Distinct(xs) && j < |xs| - 1
    ensures Distinct(xs[..|xs| - 1])
    ensures Basis(xs, j, z) == Basis(xs[..|xs| - 1], j, z) * Factor(xs, j, |xs| - 1, z)
  {
    BasisUpToPrefix(xs, |xs| - 1, j, z, |xs| - 1);
  }

  /** The sum over xs splits into the sum over the nodes before the last one plus the last term. */
  lemma {:induction false} SumUpToPrefix(xs: seq<int>, ys: seq<real>, ys2: seq<real>, z: int, n: nat)
    requires Distinct(xs) && |ys| == |xs| && |xs| >= 1 && n < |xs|
    requires |ys2| == |xs| - 1
    requires forall j :: 0 <= j < |xs| - 1 ==> ys2[j] == ys[j] * Factor(xs, j, |xs| - 1, z)
    ensures Distinct(xs[..|xs| - 1])
    ensures SumUpTo(xs, ys, z, n) == SumUpTo(xs[..|xs| - 1], ys2, z, n)
    decreases n
  {
    DistinctPrefix(xs, |xs| - 1);
    if n > 0 {
      SumUpToPrefix(xs, ys, ys2, z, n - 1);
      BasisExtend(xs, n - 1, z);
    }
  }

  // ---------------------------------------------------------------------------
  // The basis of the last node

  lemma CastMul(a: int, b: int)
    ensures (a * b) as real == a as real * b as real
  {
  }

  /** The product over a prefix grows by one factor per node. */
  lemma OmegaSnoc(xs: seq<int>, n: nat, x: int)
    requires 0 < n <= |xs|
    ensures Omega(xs[..n], x) == Omega(xs[..n - 1], x) * (x - xs[n - 1])
  {
    assert xs[..n][..n - 1] == xs[..n - 1];
  }

  /** One more factor of the basis of node j. */
  lemma BasisStep(xs: seq<int>, j: nat, z: int, n: nat)
    requires j < |xs| && 0 < n <= |xs| && Apart(xs, j) && n - 1 != j
    ensures BasisUpTo(xs, j, z, n) == BasisUpTo(xs, j, z, n - 1) * Factor(xs, j, n - 1, z)
  {
  }

  /** A factor times its denominator is its numerator. */
  lemma FactorTimesDenominator(xs: seq<int>, j: nat, i: nat, z: int)
    requires j < |xs| && i < |xs| && i != j && Apart(xs, j)
    ensures Factor(xs, j, i, z) * (xs[j] - xs[i]) as real == (z - xs[i]) as real
  {
    assert xs[i] != xs[j];
  }

  // The four steps of LastBasisUpTo, each in a context of its own.

  lemma LastBasisUnfold(xs: seq<int>, z: int, n: nat)
    requires 0 < n < |xs| && Apart(xs, |xs| - 1)
    ensures BasisUpTo(xs, |xs| - 1, z, n) * Omega(xs[..n], xs[|xs| - 1]) as real
         == (BasisUpTo(xs, |xs| - 1, z, n - 1) * Factor(xs, |xs| - 1, n - 1, z))
            * (Omega(xs[..n - 1], xs[|xs| - 1]) as real * (xs[|xs| - 1] - xs[n - 1]) as real)
  {
    hide *;
    OmegaSnoc(xs, n, xs[|xs| - 1]);
    BasisStep(xs, |xs| - 1, z, n);
    CastMul(Omega(xs[..n - 1], xs[|xs| - 1]), xs[|xs| - 1] - xs[n - 1]);
  }

  lemma LastBasisRegroup(xs: seq<int>, z: int, n: nat)
    requires 0 < n < |xs| && Apart(xs, |xs| - 1)
    ensures (BasisUpTo(xs, |xs| - 1, z, n - 1) * Factor(xs, |xs| - 1, n - 1, z))
            * (Omega(xs[..n - 1], xs[|xs| - 1]) as real * (xs[|xs| - 1] - xs[n - 1]) as real)
         == (BasisUpTo(xs, |xs| - 1, z, n - 1) * Omega(xs[..n - 1], xs[|xs| - 1]) as real)
            * (Factor(xs, |xs| - 1, n - 1, z) * (xs[|xs| - 1] - xs[n - 1]) as real)
  {
    hide *;
  }

  lemma LastBasisCancel(xs: seq<int>, z: int, n: nat)
    requires 0 < n < |xs| && Apart(xs, |xs| - 1)
    requires BasisUpTo(xs, |xs| - 1, z, n - 1) * Omega(xs[..n - 1], xs[|xs| - 1]) as real == Omega(xs[..n - 1], z) as real
    ensures (BasisUpTo(xs, |xs| - 1, z, n - 1) * Omega(xs[..n - 1], xs[|xs| - 1]) as real)
            * (Factor(xs, |xs| - 1, n - 1, z) * (xs[|xs| - 1] - xs[n - 1]) as real)
         == Omega(xs[..n - 1], z) as real * (z - xs[n - 1]) as real
  {
    hide *;
    FactorTimesDenominator(xs, |xs| - 1, n - 1, z);
  }

  lemma LastBasisFold(xs: seq<int>, z: int, n: nat)
    requires 0 < n < |xs|
    ensures Omega(xs[..n - 1], z) as real * (z - xs[n - 1]) as real == Omega(xs[..n], z) as real
  {
    hide *;
    OmegaSnoc(xs, n, z);
    CastMul(Omega(xs[..n - 1], z), z - xs[n - 1]);
  }

  /** The basis of the last node a, scaled by the product of (a - xs[i]), is the product of (z - xs[i]). */
  lemma {:induction false} LastBasisUpTo(xs: seq<int>, z: int, n: nat)
    requires 0 < |xs| && n < |xs| && Apart(xs, |xs| - 1)
    ensures BasisUpTo(xs, |xs| - 1, z, n) * Omega(xs[..n], xs[|xs| - 1]) as real == Omega(xs[..n], z) as real
    decreases n
  {
    if n == 0 {
      assert xs[..0] == [];
    } else {
      hide *;
      LastBasisUpTo(xs, z, n - 1);
      LastBasisUnfold(xs, z, n);
      LastBasisRegroup(xs, z, n);
      LastBasisCancel(xs, z, n);
      LastBasisFold(xs, z, n);
    }
  }

  /** The earlier nodes are all roots of w, and the last node is not. */
  lemma LastNodeOffRoots(xs: seq<int>)
    requires 0 < |xs| && Apart(xs, |xs| - 1)
    ensures Omega(xs[..|xs| - 1], xs[|xs| - 1]) != 0
  {
    var m := |xs| - 1;
    forall i | 0 <= i < m
      ensures xs[..m][i] != xs[m]
    {
      assert xs[..m][i] == xs[i];
    }
    OmegaNonzeroOffRoots(xs[..m], xs[m]);
  }

  /** w(z) = w(a) + (z - a) s(z) with s the quotient of w by (x - a); w vanishes at every earlier node. */
  lemma OmegaSplit(xs: seq<int>, x: int)
    requires 0 < |xs|
    ensures Omega(xs[..|xs| - 1], x)
         == Omega(xs[..|xs| - 1], xs[|xs| - 1])
            + (x - xs[|xs| - 1]) * Eval(Quotient(FromRoots(xs[..|xs| - 1]), xs[|xs| - 1]), x)
  {
    var xs' := xs[..|xs| - 1];
    var a := xs[|xs| - 1];
    QuotientSpec(FromRoots(xs'), a, x);
    FromRootsSpec(xs', x);
    FromRootsSpec(xs', a);
  }

  /** The basis of the last node a is w(z) / w(a), where w(z) = w(a) + (z - a) s(z). */
  lemma LastBasis(xs: seq<int>, z: int)
    requires 0 < |xs| && Distinct(xs)
    ensures Basis(xs, |xs| - 1, z) * Omega(xs[..|xs| - 1], xs[|xs| - 1]) as real
         == Omega(xs[..|xs| - 1], xs[|xs| - 1]) as real
            + (z - xs[|xs| - 1]) as real * Eval(Quotient(FromRoots(xs[..|xs| - 1]), xs[|xs| - 1]), z) as real
  {
    hide *;
    DistinctApart(xs, |xs| - 1);
    LastBasisFull(xs, z);
    OmegaSplitReal(xs, z);
  }

  /** The last node's basis times w(a) is w(z), where w has the earlier nodes as roots. */
  lemma LastBasisFull(xs: seq<int>, z: int)
    requires 0 < |xs| && Apart(xs, |xs| - 1)
    ensures Basis(xs, |xs| - 1, z) * Omega(xs[..|xs| - 1], xs[|xs| - 1]) as real
         == Omega(xs[..|xs| - 1], z) as real
  {
    assert Basis(xs, |xs| - 1, z) == BasisUpTo(xs, |xs| - 1, z, |xs| - 1);
    LastBasisUpTo(xs, z, |xs| - 1);
  }

  /** The split of w at the last node, read over the reals. */
  lemma OmegaSplitReal(xs: seq<int>, z: int)
    requires 0 < |xs|
    ensures Omega(xs[..|xs| - 1], z) as real
         == Omega(xs[..|xs| - 1], xs[|xs| - 1]) as real
            + (z - xs[|xs| - 1]) as real * Eval(Quotient(FromRoots(xs[..|xs| - 1]), xs[|xs| - 1]), z) as real
  {
    hide *;
    OmegaSplit(xs, z);
    CastMul(z - xs[|xs| - 1], Eval(Quotient(FromRoots(xs[..|xs| - 1]), xs[|xs| - 1]), z));
  }

  // ---------------------------------------------------------------------------
  // Interpolation theorem
  //
  // Induction on the number of nodes. Split off the last node a and write
  // w for the product of (x - x_i) over the earlier nodes. Then
  //   p(x) = p(a) + (x - a) q(x)    and    w(x) = w(a) + (x - a) s(x),
  // with q and s of degree below the number of earlier nodes, so the theorem
  // holds for them there. Each earlier folded value is
  //   alpha * s(x_j) + (z - a) * q(x_j),  alpha = -(z - a) p(a) / w(a),
  // and the last basis is w(z) / w(a); the pieces add up to p(z).
  //
  // The lemmas below spell these out in full, so that every statement is
  // read the same way when the function bodies are hidden:
  //   a      xs[|xs| - 1]
  //   w(a)   Omega(xs[..|xs| - 1], xs[|xs| - 1])
  //   s      Quotient(FromRoots(xs[..|xs| - 1]), xs[|xs| - 1])
  //   q      Quotient(p, xs[|xs| - 1])
  //   alpha  Alpha(Eval(p, a) as real, w(a) as real, (z - a) as real)

  /** The values of polynomial c at the nodes xs. */
  function ValuesAt(c: seq<int>, xs: seq<int>): (ys: seq<real>)
    ensures |ys| == |xs|
    ensures forall i {:trigger ys[i]} :: 0 <= i < |xs| ==> ys[i] == Eval(c, xs[i]) as real
  {
    seq(|xs|, i requires 0 <= i < |xs| => Eval(c, xs[i]) as real)
  }

  /** The values at the nodes before the last, each scaled by the last node's factor. */
  function Folded(xs: seq<int>, ys: seq<real>, z: int): (ys2: seq<real>)
    requires Distinct(xs) && |ys| == |xs| && 1 <= |xs|
    ensures |ys2| == |xs| - 1
    ensures forall j {:trigger ys2[j]} :: 0 <= j < |xs| - 1 ==> ys2[j] == ys[j] * Factor(xs, j, |xs| - 1, z)
  {
    seq(|xs| - 1, j requires 0 <= j < |xs| - 1 => ys[j] * Factor(xs, j, |xs| - 1, z))
  }

  /** The sum over all nodes is the sum of the folded values over the earlier nodes plus the last term. */
  lemma SplitLast(xs: seq<int>, ys: seq<real>, z: int)
    requires Distinct(xs) && |ys| == |xs| && 1 <= |xs|
    ensures Distinct(xs[..|xs| - 1])
    ensures Interpolate(xs, ys, z)
         == Interpolate(xs[..|xs| - 1], Folded(xs, ys, z), z) + ys[|xs| - 1] * Basis(xs, |xs| - 1, z)
  {
    SumUpToPrefix(xs, ys, Folded(xs, ys, z), z, |xs| - 1);
  }

  /**
   alpha * s + e * q, kept as one term so that rewriting its arguments is
   congruence rather than arithmetic.
   */
  function Combination(alpha: real, s: real, e: real, q: real): real {
    alpha * s + e * q
  }

  /** alpha = -(z - a) p(a) / w(a). */
  function Alpha(pa: real, wa: real, e: real): real
    requires wa != 0.0
  {
    -(e * pa) / wa
  }

  lemma NodeTermIdentity(pa: real, qj: real, sj: real, wa: real, d: real, e: real)
    requires d != 0.0 && wa != 0.0 && wa + d * sj == 0.0
    ensures (pa + d * qj) * (e / d) == Combination(Alpha(pa, wa, e), sj, e, qj)
  {
    assert sj != 0.0;
    assert Alpha(pa, wa, e) * sj == e * pa / d by {
      assert wa == -(d * sj);
      assert -(e * pa) / wa * sj == -(e * pa) * sj / wa;
      assert -(e * pa) * sj / (-(d * sj)) == e * pa / d;
    }
    assert (pa + d * qj) * (e / d) == e * pa / d + e * qj;
  }

  /** At an earlier node x_j, over the integers: w(a) + (x_j - a) s(x_j) = w(x_j) = 0. */
  lemma NodeRootInt(xs: seq<int>, j: nat)
    requires j < |xs| - 1
    ensures Omega(xs[..|xs| - 1], xs[|xs| - 1])
            + (xs[j] - xs[|xs| - 1]) * Eval(Quotient(FromRoots(xs[..|xs| - 1]), xs[|xs| - 1]), xs[j])
         == 0
  {
    hide *;
    OmegaSplit(xs, xs[j]);
    assert xs[..|xs| - 1][j] == xs[j];
    OmegaVanishesAtRoot(xs[..|xs| - 1], j);
  }

  /** The same over the reals. */
  lemma NodeRoot(xs: seq<int>, j: nat)
    requires j < |xs| - 1
    ensures Omega(xs[..|xs| - 1], xs[|xs| - 1]) as real
            + (xs[j] - xs[|xs| - 1]) as real * Eval(Quotient(FromRoots(xs[..|xs| - 1]), xs[|xs| - 1]), xs[j]) as real
         == 0.0
  {
    hide *;
    NodeRootInt(xs, j);
    CastMul(xs[j] - xs[|xs| - 1], Eval(Quotient(FromRoots(xs[..|xs| - 1]), xs[|xs| - 1]), xs[j]));
  }

  /** A factor is the quotient of the two differences. */
  lemma FactorValue(xs: seq<int>, j: nat, i: nat, z: int)
    requires j < |xs| && i < |xs| && i != j && Apart(xs, j)
    ensures Factor(xs, j, i, z) == (z - xs[i]) as real / (xs[j] - xs[i]) as real
  {
  }

  // The folded value at an earlier node x_j, rewritten in four steps, each
  // in a context of its own; a stands for the last node, w, q and s are as
  // above.

  /** The folded value is p(x_j) times the last node's factor. */
  lemma FoldedScale(xs: seq<int>, ys: seq<real>, p: seq<int>, z: int, j: nat)
    requires Distinct(xs) && |ys| == |xs| && j < |xs| - 1
    requires ys[j] == Eval(p, xs[j]) as real
    ensures Folded(xs, ys, z)[j] == Eval(p, xs[j]) as real * Factor(xs, j, |xs| - 1, z)
  {
    hide *;
  }

  /** p(x_j) = p(a) + (x_j - a) q(x_j), and the factor is (z - a) / (x_j - a). */
  lemma FoldedExpand(xs: seq<int>, p: seq<int>, z: int, j: nat)
    requires Distinct(xs) && 1 <= |p| && j < |xs| - 1 && xs[j] != xs[|xs| - 1]
    ensures Eval(p, xs[j]) as real * Factor(xs, j, |xs| - 1, z)
         == (Eval(p, xs[|xs| - 1]) as real + (xs[j] - xs[|xs| - 1]) as real * Eval(Quotient(p, xs[|xs| - 1]), xs[j]) as real)
            * ((z - xs[|xs| - 1]) as real / (xs[j] - xs[|xs| - 1]) as real)
  {
    hide *;
    DistinctApart(xs, j);
    QuotientSpecReal(p, xs[|xs| - 1], xs[j]);
    FactorValue(xs, j, |xs| - 1, z);
  }

  /** Since w(a) + (x_j - a) s(x_j) = 0, dividing by (x_j - a) is multiplying by -s(x_j) / w(a). */
  lemma FoldedIdentity(xs: seq<int>, p: seq<int>, z: int, j: nat)
    requires Distinct(xs) && 1 <= |p| && j < |xs| - 1 && xs[j] != xs[|xs| - 1]
    requires Omega(xs[..|xs| - 1], xs[|xs| - 1]) != 0
    ensures (Eval(p, xs[|xs| - 1]) as real + (xs[j] - xs[|xs| - 1]) as real * Eval(Quotient(p, xs[|xs| - 1]), xs[j]) as real)
            * ((z - xs[|xs| - 1]) as real / (xs[j] - xs[|xs| - 1]) as real)
         == Combination(
             Alpha(Eval(p, xs[|xs| - 1]) as real, Omega(xs[..|xs| - 1], xs[|xs| - 1]) as real, (z - xs[|xs| - 1]) as real),
             Eval(Quotient(FromRoots(xs[..|xs| - 1]), xs[|xs| - 1]), xs[j]) as real,
             (z - xs[|xs| - 1]) as real,
             Eval(Quotient(p, xs[|xs| - 1]), xs[j]) as real)
  {
    hide *;
    NodeRoot(xs, j);
    NodeTermIdentity(Eval(p, xs[|xs| - 1]) as real, Eval(Quotient(p, xs[|xs| - 1]), xs[j]) as real,
                     Eval(Quotient(FromRoots(xs[..|xs| - 1]), xs[|xs| - 1]), xs[j]) as real,
                     Omega(xs[..|xs| - 1], xs[|xs| - 1]) as real,
                     (xs[j] - xs[|xs| - 1]) as real, (z - xs[|xs| - 1]) as real);
  }

  /** Entry j of the values over the earlier nodes is the value at x_j. */
  lemma ValuesAtEarlier(c: seq<int>, xs: seq<int>, j: nat)
    requires j < |xs| - 1
    ensures ValuesAt(c, xs[..|xs| - 1])[j] == Eval(c, xs[j]) as real
  {
    assert xs[..|xs| - 1][j] == xs[j];
  }

  /** The folded value at x_j, written with p(a), q(x_j) and the factor (z - a) / (x_j - a). */
  lemma FoldedLeft(xs: seq<int>, ys: seq<real>, p: seq<int>, z: int, j: nat)
    requires Distinct(xs) && 1 <= |p| && |ys| == |xs| && j < |xs| - 1 && xs[j] != xs[|xs| - 1]
    requires ys[j] == Eval(p, xs[j]) as real
    ensures Folded(xs, ys, z)[j]
         == (Eval(p, xs[|xs| - 1]) as real + (xs[j] - xs[|xs| - 1]) as real * Eval(Quotient(p, xs[|xs| - 1]), xs[j]) as real)
            * ((z - xs[|xs| - 1]) as real / (xs[j] - xs[|xs| - 1]) as real)
  {
    hide *;
    FoldedScale(xs, ys, p, z, j);
    FoldedExpand(xs, p, z, j);
  }

  /** The same value, in terms of the values of s and q at the earlier nodes. */
  lemma FoldedRight(xs: seq<int>, p: seq<int>, z: int, j: nat)
    requires Distinct(xs) && 1 <= |p| && j < |xs| - 1 && xs[j] != xs[|xs| - 1]
    requires Omega(xs[..|xs| - 1], xs[|xs| - 1]) != 0
    ensures (Eval(p, xs[|xs| - 1]) as real + (xs[j] - xs[|xs| - 1]) as real * Eval(Quotient(p, xs[|xs| - 1]), xs[j]) as real)
            * ((z - xs[|xs| - 1]) as real / (xs[j] - xs[|xs| - 1]) as real)
         == Combination(
             Alpha(Eval(p, xs[|xs| - 1]) as real, Omega(xs[..|xs| - 1], xs[|xs| - 1]) as real, (z - xs[|xs| - 1]) as real),
             ValuesAt(Quotient(FromRoots(xs[..|xs| - 1]), xs[|xs| - 1]), xs[..|xs| - 1])[j],
             (z - xs[|xs| - 1]) as real,
             ValuesAt(Quotient(p, xs[|xs| - 1]), xs[..|xs| - 1])[j])
  {
    hide *;
    FoldedIdentity(xs, p, z, j);
    ValuesAtEarlier(Quotient(FromRoots(xs[..|xs| - 1]), xs[|xs| - 1]), xs, j);
    ValuesAtEarlier(Quotient(p, xs[|xs| - 1]), xs, j);
  }

  /** One folded value, in terms of the values of s and q at the earlier nodes. */
  lemma FoldedValue(xs: seq<int>, ys: seq<real>, p: seq<int>, z: int, j: nat)
    requires Distinct(xs) && 1 <= |p| && |ys| == |xs| && j < |xs| - 1
    requires ys[j] == Eval(p, xs[j]) as real
    requires Omega(xs[..|xs| - 1], xs[|xs| - 1]) != 0
    ensures Folded(xs, ys, z)[j]
         == Combination(
             Alpha(Eval(p, xs[|xs| - 1]) as real, Omega(xs[..|xs| - 1], xs[|xs| - 1]) as real, (z - xs[|xs| - 1]) as real),
             ValuesAt(Quotient(FromRoots(xs[..|xs| - 1]), xs[|xs| - 1]), xs[..|xs| - 1])[j],
             (z - xs[|xs| - 1]) as real,
             ValuesAt(Quotient(p, xs[|xs| - 1]), xs[..|xs| - 1])[j])
  {
    hide *;
    DistinctApart(xs, j);
    ApartAt(xs, j, |xs| - 1);
    FoldedLeft(xs, ys, p, z, j);
    FoldedRight(xs, p, z, j);
  }

  /** Every entry of ys is alpha times the entry of u plus beta times the entry of v. */
  predicate Combines(ys: seq<real>, u: seq<real>, v: seq<real>, alpha: real, beta: real) {
    |u| == |ys| && |v| == |ys| &&
    forall j :: 0 <= j < |ys| ==> ys[j] == Combination(alpha, u[j], beta, v[j])
  }

  lemma CombinesAt(ys: seq<real>, u: seq<real>, v: seq<real>, alpha: real, beta: real, j: nat)
    requires Combines(ys, u, v, alpha, beta) && j < |ys|
    ensures j < |u| && j < |v| && ys[j] == Combination(alpha, u[j], beta, v[j])
  {
  }

  lemma CombinesIntro(ys: seq<real>, u: seq<real>, v: seq<real>, alpha: real, beta: real)
    requires |u| == |ys| && |v| == |ys|
    requires forall j :: 0 <= j < |ys| ==> ys[j] == Combination(alpha, u[j], beta, v[j])
    ensures Combines(ys, u, v, alpha, beta)
  {
  }

  /** The Lagrange form is linear in the values. */
  lemma InterpolateLinear(xs: seq<int>, ys: seq<real>, u: seq<real>, v: seq<real>, alpha: real, beta: real, z: int)
    requires Distinct(xs) && |ys| == |xs| && |u| == |xs| && |v| == |xs|
    requires Combines(ys, u, v, alpha, beta)
    ensures Interpolate(xs, ys, z) == Combination(alpha, Interpolate(xs, u, z), beta, Interpolate(xs, v, z))
  {
    SumLinear(xs, ys, u, v, alpha, beta, z, |xs|);
  }

  /** Every folded value is alpha times the s-value plus (z - a) times the q-value at its node. */
  lemma FoldedValues(xs: seq<int>, ys: seq<real>, p: seq<int>, z: int)
    requires Distinct(xs) && 1 <= |p| && 1 <= |xs| && |ys| == |xs|
    requires forall i {:trigger ys[i]} :: 0 <= i < |xs| ==> ys[i] == Eval(p, xs[i]) as real
    ensures Omega(xs[..|xs| - 1], xs[|xs| - 1]) != 0
    ensures Combines(
        Folded(xs, ys, z),
        ValuesAt(Quotient(FromRoots(xs[..|xs| - 1]), xs[|xs| - 1]), xs[..|xs| - 1]),
        ValuesAt(Quotient(p, xs[|xs| - 1]), xs[..|xs| - 1]),
        Alpha(Eval(p, xs[|xs| - 1]) as real, Omega(xs[..|xs| - 1], xs[|xs| - 1]) as real, (z - xs[|xs| - 1]) as real),
        (z - xs[|xs| - 1]) as real)
  {
    hide *;
    DistinctApart(xs, |xs| - 1);
    LastNodeOffRoots(xs);
    forall j | 0 <= j < |xs| - 1
      ensures Folded(xs, ys, z)[j] == Combination(
          Alpha(Eval(p, xs[|xs| - 1]) as real, Omega(xs[..|xs| - 1], xs[|xs| - 1]) as real, (z - xs[|xs| - 1]) as real),
          ValuesAt(Quotient(FromRoots(xs[..|xs| - 1]), xs[|xs| - 1]), xs[..|xs| - 1])[j],
          (z - xs[|xs| - 1]) as real,
          ValuesAt(Quotient(p, xs[|xs| - 1]), xs[..|xs| - 1])[j])
    {
      FoldedValue(xs, ys, p, z, j);
    }
    CombinesIntro(
        Folded(xs, ys, z),
        ValuesAt(Quotient(FromRoots(xs[..|xs| - 1]), xs[|xs| - 1]), xs[..|xs| - 1]),
        ValuesAt(Quotient(p, xs[|xs| - 1]), xs[..|xs| - 1]),
        Alpha(Eval(p, xs[|xs| - 1]) as real, Omega(xs[..|xs| - 1], xs[|xs| - 1]) as real, (z - xs[|xs| - 1]) as real),
        (z - xs[|xs| - 1]) as real);
  }

  /** The folded values, by linearity, sum to alpha times the s-values' sum plus (z - a) times the q-values'. */
  lemma FoldedSum(xs: seq<int>, ys: seq<real>, p: seq<int>, z: int)
    requires Distinct(xs) && 1 <= |p| && 1 <= |xs| && |ys| == |xs|
    requires forall i {:trigger ys[i]} :: 0 <= i < |xs| ==> ys[i] == Eval(p, xs[i]) as real
    ensures Distinct(xs[..|xs| - 1]) && Omega(xs[..|xs| - 1], xs[|xs| - 1]) != 0
    ensures Interpolate(xs[..|xs| - 1], Folded(xs, ys, z), z)
         == Combination(
             Alpha(Eval(p, xs[|xs| - 1]) as real, Omega(xs[..|xs| - 1], xs[|xs| - 1]) as real, (z - xs[|xs| - 1]) as real),
             Interpolate(xs[..|xs| - 1], ValuesAt(Quotient(FromRoots(xs[..|xs| - 1]), xs[|xs| - 1]), xs[..|xs| - 1]), z),
             (z - xs[|xs| - 1]) as real,
             Interpolate(xs[..|xs| - 1], ValuesAt(Quotient(p, xs[|xs| - 1]), xs[..|xs| - 1]), z))
  {
    hide *;
    DistinctPrefix(xs, |xs| - 1);
    FoldedValues(xs, ys, p, z);
    InterpolateLinear(
        xs[..|xs| - 1],
        Folded(xs, ys, z),
        ValuesAt(Quotient(FromRoots(xs[..|xs| - 1]), xs[|xs| - 1]), xs[..|xs| - 1]),
        ValuesAt(Quotient(p, xs[|xs| - 1]), xs[..|xs| - 1]),
        Alpha(Eval(p, xs[|xs| - 1]) as real, Omega(xs[..|xs| - 1], xs[|xs| - 1]) as real, (z - xs[|xs| - 1]) as real),
        (z - xs[|xs| - 1]) as real,
        z);
  }

  /** The closing algebra of the inductive step, over named quantities. */
  lemma StepIdentity(total: real, folded: real, last: real, b: real,
                     pa: real, pz: real, qz: real, sz: real, wa: real, e: real)
    requires wa != 0.0
    requires total == folded + last * b
    requires folded == Combination(Alpha(pa, wa, e), sz, e, qz)
    requires last == pa
    requires b * wa == wa + e * sz
    requires pz == pa + e * qz
    ensures total == pz
  {
    var t := e * sz;
    assert b == 1.0 + t / wa by {
      assert b == (b * wa) / wa;
      assert (wa + t) / wa == wa / wa + t / wa;
      assert wa / wa == 1.0;
    }
    assert Alpha(pa, wa, e) * sz == -(pa * (t / wa));
    assert last * b == pa + pa * (t / wa);
  }

  /** The factor theorem of the polynomial module, read over the reals. */
  lemma QuotientSpecReal(c: seq<int>, a: int, x: int)
    requires |c| >= 1
    ensures Eval(c, x) as real == Eval(c, a) as real + (x - a) as real * Eval(Quotient(c, a), x) as real
  {
    hide *;
    QuotientSpec(c, a, x);
    CastMul(x - a, Eval(Quotient(c, a), x));
  }

  /** The theorem for s and q over the earlier nodes turns their sums into s(z) and q(z). */
  lemma FoldedSubstitute(xs: seq<int>, p: seq<int>, z: int)
    requires 1 <= |p| && 1 <= |xs| && Distinct(xs[..|xs| - 1])
    requires Omega(xs[..|xs| - 1], xs[|xs| - 1]) != 0
    requires Interpolate(xs[..|xs| - 1], ValuesAt(Quotient(p, xs[|xs| - 1]), xs[..|xs| - 1]), z)
          == Eval(Quotient(p, xs[|xs| - 1]), z) as real
    requires Interpolate(xs[..|xs| - 1], ValuesAt(Quotient(FromRoots(xs[..|xs| - 1]), xs[|xs| - 1]), xs[..|xs| - 1]), z)
          == Eval(Quotient(FromRoots(xs[..|xs| - 1]), xs[|xs| - 1]), z) as real
    ensures Combination(
        Alpha(Eval(p, xs[|xs| - 1]) as real, Omega(xs[..|xs| - 1], xs[|xs| - 1]) as real, (z - xs[|xs| - 1]) as real),
        Interpolate(xs[..|xs| - 1], ValuesAt(Quotient(FromRoots(xs[..|xs| - 1]), xs[|xs| - 1]), xs[..|xs| - 1]), z),
        (z - xs[|xs| - 1]) as real,
        Interpolate(xs[..|xs| - 1], ValuesAt(Quotient(p, xs[|xs| - 1]), xs[..|xs| - 1]), z))
         == Combination(
             Alpha(Eval(p, xs[|xs| - 1]) as real, Omega(xs[..|xs| - 1], xs[|xs| - 1]) as real, (z - xs[|xs| - 1]) as real),
             Eval(Quotient(FromRoots(xs[..|xs| - 1]), xs[|xs| - 1]), z) as real,
             (z - xs[|xs| - 1]) as real,
             Eval(Quotient(p, xs[|xs| - 1]), z) as real)
  {
    hide *;
  }

  /** The folded sum once the theorem is known for q and s over the earlier nodes. */
  lemma FoldedStep(xs: seq<int>, ys: seq<real>, p: seq<int>, z: int)
    requires Distinct(xs) && |ys| == |xs| && 1 <= |p| <= |xs|
    requires forall i {:trigger ys[i]} :: 0 <= i < |xs| ==> ys[i] == Eval(p, xs[i]) as real
    requires Distinct(xs[..|xs| - 1])
    requires Interpolate(xs[..|xs| - 1], ValuesAt(Quotient(p, xs[|xs| - 1]), xs[..|xs| - 1]), z)
          == Eval(Quotient(p, xs[|xs| - 1]), z) as real
    requires Interpolate(xs[..|xs| - 1], ValuesAt(Quotient(FromRoots(xs[..|xs| - 1]), xs[|xs| - 1]), xs[..|xs| - 1]), z)
          == Eval(Quotient(FromRoots(xs[..|xs| - 1]), xs[|xs| - 1]), z) as real
    ensures Omega(xs[..|xs| - 1], xs[|xs| - 1]) != 0
    ensures Interpolate(xs[..|xs| - 1], Folded(xs, ys, z), z)
         == Combination(
             Alpha(Eval(p, xs[|xs| - 1]) as real, Omega(xs[..|xs| - 1], xs[|xs| - 1]) as real, (z - xs[|xs| - 1]) as real),
             Eval(Quotient(FromRoots(xs[..|xs| - 1]), xs[|xs| - 1]), z) as real,
             (z - xs[|xs| - 1]) as real,
             Eval(Quotient(p, xs[|xs| - 1]), z) as real)
  {
    hide *;
    FoldedSum(xs, ys, p, z);
    FoldedSubstitute(xs, p, z);
  }

  /** The inductive step: the folded sum, the last term and the factor theorem add up to p(z). */
  lemma ClosingStep(xs: seq<int>, ys: seq<real>, p: seq<int>, z: int)
    requires Distinct(xs) && |ys| == |xs| && 1 <= |p| <= |xs|
    requires ys[|xs| - 1] == Eval(p, xs[|xs| - 1]) as real
    requires Omega(xs[..|xs| - 1], xs[|xs| - 1]) != 0 && Distinct(xs[..|xs| - 1])
    requires Interpolate(xs[..|xs| - 1], Folded(xs, ys, z), z)
         == Combination(
             Alpha(Eval(p, xs[|xs| - 1]) as real, Omega(xs[..|xs| - 1], xs[|xs| - 1]) as real, (z - xs[|xs| - 1]) as real),
             Eval(Quotient(FromRoots(xs[..|xs| - 1]), xs[|xs| - 1]), z) as real,
             (z - xs[|xs| - 1]) as real,
             Eval(Quotient(p, xs[|xs| - 1]), z) as real)
    ensures Interpolate(xs, ys, z) == Eval(p, z) as real
  {
    hide *;
    DistinctApart(xs, |xs| - 1);
    SplitLast(xs, ys, z);
    LastBasis(xs, z);
    QuotientSpecReal(p, xs[|xs| - 1], z);
    StepIdentity(Interpolate(xs, ys, z), Interpolate(xs[..|xs| - 1], Folded(xs, ys, z), z),
                 ys[|xs| - 1], Basis(xs, |xs| - 1, z),
                 Eval(p, xs[|xs| - 1]) as real, Eval(p, z) as real,
                 Eval(Quotient(p, xs[|xs| - 1]), z) as real,
                 Eval(Quotient(FromRoots(xs[..|xs| - 1]), xs[|xs| - 1]), z) as real,
                 Omega(xs[..|xs| - 1], xs[|xs| - 1]) as real, (z - xs[|xs| - 1]) as real);
  }

  /**
   If the values at distinct nodes come from a polynomial with at most as
   many coefficients as there are nodes (degree below the number of nodes),
   the Lagrange form evaluates to that polynomial at every integer z.
   */
  lemma {:induction false} InterpolationReproduces(xs: seq<int>, ys: seq<real>, p: seq<int>, z: int)
    requires Distinct(xs) && |ys| == |xs| && |p| <= |xs|
    requires forall i {:trigger ys[i]} :: 0 <= i < |xs| ==> ys[i] == Eval(p, xs[i]) as real
    ensures Interpolate(xs, ys, z) == Eval(p, z) as real
    decreases |xs|
  {
    if |xs| == 0 {
      return;
    }
    if |p| == 0 {
      CombinesIntro(ys, ys, ys, 0.0, 0.0);
      SumLinear(xs, ys, ys, ys, 0.0, 0.0, z, |xs|);
      return;
    }
    hide *;
    DistinctPrefix(xs, |xs| - 1);
    InterpolationReproduces(xs[..|xs| - 1], ValuesAt(Quotient(p, xs[|xs| - 1]), xs[..|xs| - 1]),
                            Quotient(p, xs[|xs| - 1]), z);
    InterpolationReproduces(xs[..|xs| - 1], ValuesAt(Quotient(FromRoots(xs[..|xs| - 1]), xs[|xs| - 1]), xs[..|xs| - 1]),
                            Quotient(FromRoots(xs[..|xs| - 1]), xs[|xs| - 1]), z);
    FoldedStep(xs, ys, p, z);
    ClosingStep(xs, ys, p, z);
  }

  /** Dividing by d is the combination with weights 1/d and 0. */
  lemma ScaleDown(d: real, y: real, v: real)
    requires d > 0.0 && d * y == v
    ensures y == Combination(1.0 / d, v, 0.0, y)
  {
    assert 1.0 / d * v == (1.0 / d * d) * y;
  }

  lemma ScaleUp(d: real, y: real, v: real)
    requires d > 0.0 && y == Combination(1.0 / d, v, 0.0, y)
    ensures d * y == v
  {
    assert d * y == (d * (1.0 / d)) * v;
  }

  /**
   Values on a polynomial with rational coefficients: when d * ys[i] is the
   value at xs[i] of the integer polynomial p, the Lagrange form is p / d.
   Every polynomial of degree below |xs| through integer points has this
   form for some d > 0, so this covers all the polynomials shares can lie on.
   */
  lemma InterpolationReproducesScaled(xs: seq<int>, ys: seq<real>, p: seq<int>, d: int, z: int)
    requires Distinct(xs) && |ys| == |xs| && |p| <= |xs| && d > 0
    requires forall i {:trigger ys[i]} :: 0 <= i < |xs| ==> d as real * ys[i] == Eval(p, xs[i]) as real
    ensures d as real * Interpolate(xs, ys, z) == Eval(p, z) as real
  {
    hide *;
    var u := ValuesAt(p, xs);
    var dr := d as real;
    forall j | 0 <= j < |ys|
      ensures ys[j] == Combination(1.0 / dr, u[j], 0.0, ys[j])
    {
      ScaleDown(dr, ys[j], u[j]);
    }
    CombinesIntro(ys, u, ys, 1.0 / dr, 0.0);
    SumLinear(xs, ys, u, ys, 1.0 / dr, 0.0, z, |xs|);
    InterpolateIsSum(xs, ys, z);
    InterpolateIsSum(xs, u, z);
    InterpolationReproduces(xs, u, p, z);
    ScaleUp(dr, Interpolate(xs, ys, z), Interpolate(xs, u, z));
  }

  lemma InterpolateIsSum(xs: seq<int>, ys: seq<real>, z: int)
    requires Distinct(xs) && |ys| == |xs|
    ensures Interpolate(xs, ys, z) == SumUpTo(xs, ys, z, |xs|)
  {
  }
}
