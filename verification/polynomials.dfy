/**
 Integer polynomials as coefficient sequences, lowest degree first. A
 sequence of length m describes a polynomial of degree less than m. Shares
 are points of such a polynomial whose constant term is the secret; the
 interpolation theorem in the Lagrange module is stated in their terms.
 */
module Polynomials {

  /** The value at `x` of the polynomial with coefficients `c`. */
  function Eval(c: seq<int>, x: int): int
    decreases |c|
  {
    if |c| == 0 then 0 else c[0] + x * Eval(c[1..], x)
  }

  /** The value at 0 is the constant term. */
  lemma EvalAtZero(c: seq<int>)
    ensures Eval(c, 0) == (if |c| == 0 then 0 else c[0])
  {
  }

  /** Quotient of synthetic division of `c` by (x - a). */
  function Quotient(c: seq<int>, a: int): (q: seq<int>)
    requires |c| >= 1
    ensures |q| == |c| - 1
    decreases |c|
  {
    if |c| == 1 then [] else [Eval(c[1..], a)] + Quotient(c[1..], a)
  }

  /** Horner's step: c(x) = c[0] + x * (the rest)(x). */
  lemma EvalCons(c: seq<int>, x: int)
    requires |c| >= 1
    ensures Eval(c, x) == c[0] + x * Eval(c[1..], x)
  {
  }

  lemma QuotientCons(c: seq<int>, a: int)
    requires |c| >= 2
    ensures |Quotient(c, a)| >= 1
    ensures Quotient(c, a)[0] == Eval(c[1..], a) && Quotient(c, a)[1..] == Quotient(c[1..], a)
  {
  }

  /** The ring identity behind one step of the factor theorem. */
  lemma FactorStepArith(c0: int, a: int, x: int, ta: int, tx: int, qt: int, cx: int, ca: int, qx: int)
    requires tx == ta + (x - a) * qt
    requires cx == c0 + x * tx && ca == c0 + a * ta && qx == ta + x * qt
    ensures cx == ca + (x - a) * qx
  {
    assert x * tx == x * ta + x * ((x - a) * qt);
    assert (x - a) * qx == (x - a) * ta + (x - a) * (x * qt);
    assert x * ((x - a) * qt) == (x - a) * (x * qt);
  }

  /** Factor theorem: c(x) = c(a) + (x - a) * q(x), with q one degree lower. */
  lemma {:induction false} QuotientSpec(c: seq<int>, a: int, x: int)
    requires |c| >= 1
    ensures Eval(c, x) == Eval(c, a) + (x - a) * Eval(Quotient(c, a), x)
    decreases |c|
  {
    if |c| == 1 {
      assert c[1..] == [];
    } else {
      hide *;
      QuotientSpec(c[1..], a, x);
      QuotientCons(c, a);
      EvalCons(c, x);
      EvalCons(c, a);
      EvalCons(Quotient(c, a), x);
      FactorStepArith(c[0], a, x, Eval(c[1..], a), Eval(c[1..], x), Eval(Quotient(c[1..], a), x),
                      Eval(c, x), Eval(c, a), Eval(Quotient(c, a), x));
    }
  }

  /** The product of (x - rs[i]) over all roots. */
  function Omega(rs: seq<int>, x: int): int
    decreases |rs|
  {
    if |rs| == 0 then 1 else Omega(rs[..|rs| - 1], x) * (x - rs[|rs| - 1])
  }

  lemma {:induction false} OmegaVanishesAtRoot(rs: seq<int>, i: int)
    requires 0 <= i < |rs|
    ensures Omega(rs, rs[i]) == 0
    decreases |rs|
  {
    if i < |rs| - 1 {
      OmegaVanishesAtRoot(rs[..|rs| - 1], i);
    }
  }

  lemma {:induction false} OmegaNonzeroOffRoots(rs: seq<int>, x: int)
    requires forall i :: 0 <= i < |rs| ==> rs[i] != x
    ensures Omega(rs, x) != 0
    decreases |rs|
  {
    if |rs| > 0 {
      OmegaNonzeroOffRoots(rs[..|rs| - 1], x);
    }
  }

  /** Adds `v` to the constant term. */
  function AddConstant(c: seq<int>, v: int): (d: seq<int>)
    requires |c| >= 1
    ensures |d| == |c|
  {
    [c[0] + v] + c[1..]
  }

  lemma AddConstantSpec(c: seq<int>, v: int, x: int)
    requires |c| >= 1
    ensures Eval(AddConstant(c, v), x) == Eval(c, x) + v
  {
    assert AddConstant(c, v)[1..] == c[1..];
  }

  /** Coefficients of (x - r) * c(x). */
  function MulLinear(c: seq<int>, r: int): (d: seq<int>)
    ensures |d| == |c| + 1
    decreases |c|
  {
    if |c| == 0 then [0] else [-r * c[0]] + AddConstant(MulLinear(c[1..], r), c[0])
  }

  lemma {:induction false} MulLinearSpec(c: seq<int>, r: int, x: int)
    ensures Eval(MulLinear(c, r), x) == (x - r) * Eval(c, x)
    decreases |c|
  {
    if |c| > 0 {
      var t := c[1..];
      MulLinearSpec(t, r, x);
      var d := MulLinear(c, r);
      var m := AddConstant(MulLinear(t, r), c[0]);
      assert d[1..] == m;
      AddConstantSpec(MulLinear(t, r), c[0], x);
      var et := Eval(t, x);
      calc {
        Eval(d, x);
        -r * c[0] + x * ((x - r) * et + c[0]);
        (x - r) * (c[0] + x * et);
      }
    }
  }

  /** Coefficients of the monic polynomial whose roots are `rs`. */
  function FromRoots(rs: seq<int>): (c: seq<int>)
    ensures |c| == |rs| + 1
    decreases |rs|
  {
    if |rs| == 0 then [1] else MulLinear(FromRoots(rs[..|rs| - 1]), rs[|rs| - 1])
  }

  lemma FromRootsSnoc(rs: seq<int>)
    requires |rs| >= 1
    ensures FromRoots(rs) == MulLinear(FromRoots(rs[..|rs| - 1]), rs[|rs| - 1])
  {
  }

  lemma OmegaSnocRoot(rs: seq<int>, x: int)
    requires |rs| >= 1
    ensures Omega(rs, x) == Omega(rs[..|rs| - 1], x) * (x - rs[|rs| - 1])
  {
  }

  lemma {:induction false} FromRootsSpec(rs: seq<int>, x: int)
    ensures Eval(FromRoots(rs), x) == Omega(rs, x)
    decreases |rs|
  {
    if |rs| == 0 {
      assert Eval([1], x) == 1 + x * Eval([], x);
    } else {
      hide *;
      FromRootsSnoc(rs);
      OmegaSnocRoot(rs, x);
      FromRootsSpec(rs[..|rs| - 1], x);
      MulLinearSpec(FromRoots(rs[..|rs| - 1]), rs[|rs| - 1], x);
    }
  }
}
