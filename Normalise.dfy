/**
 * A small, deterministic stand-in for `sm.expand`: products are multiplied
 * out over sums, keeping the order of the factors; powers of a compound
 * base are multiplied out as repeated products; a non-real constant is read
 * as SymPy holds it, `b*I` as the factors `b` and `I` and `a + b*I` as two
 * terms.  Like terms are not collected, numeric coefficients are not folded,
 * factors are not reordered and equal neighbours are not merged into powers,
 * so the monomials are the ones SymPy would build up to collection,
 * coefficient folding and reordering.
 */
module Normalise {
  import opened Exprs

  /** A node `sm.expand` leaves standing as a single factor. */
  predicate Atomic(e: Expr)
  {
    (e.Num? && NumAtom(e.c)) || e.Var? || e.Apply? || e.Deriv?
  }

  /** The monomials SymPy holds for a constant: itself when atomic, else as in `Args`. */
  function ConstantMonomials(c: Complex): seq<seq<Expr>>
  {
    if NumAtom(c) then [[Num(c)]]
    else if c.re == 0 then [ImagFactors(c.im, c.den)]
    else [[Num(Complex(c.re, 0, c.den))], ImagFactors(c.im, c.den)]
  }

  /** A factor of an expanded monomial: an atom or a power of an atom. */
  predicate IsFactor(f: Expr)
  {
    Atomic(f) || (f.Pow? && Atomic(f.base))
  }

  /** The monomials of `e`, each an ordered list of factors; their sum is `e`. */
  function Expand(e: Expr): seq<seq<Expr>>
    decreases e, 1
  {
    match e
    case Add(ts) => ExpandSum(ts)
    case Mul(fs) => ExpandProduct(fs)
    case Pow(b, n) => if Atomic(b) then [[e]] else Power(Expand(b), n)
    case Num(c) => ConstantMonomials(c)
    case _ => [[e]]
  }

  function ExpandSum(ts: seq<Expr>): seq<seq<Expr>>
    decreases ts, 0
  {
    if ts == [] then [] else Expand(ts[0]) + ExpandSum(ts[1..])
  }

  function ExpandProduct(fs: seq<Expr>): seq<seq<Expr>>
    decreases fs, 0
  {
    if fs == [] then [[]] else Cross(Expand(fs[0]), ExpandProduct(fs[1..]))
  }

  /** Every monomial of `a` followed by every monomial of `b`, in order. */
  function Cross(a: seq<seq<Expr>>, b: seq<seq<Expr>>): (r: seq<seq<Expr>>)
    ensures |r| == |a| * |b|
  {
    if a == [] then [] else seq(|b|, j requires 0 <= j < |b| => a[0] + b[j]) + Cross(a[1..], b)
  }

  /** Multiplying monomials by one factor appends it to each of them. */
  lemma {:induction false} CrossFactor(a: seq<seq<Expr>>, f: Expr)
    ensures Cross(a, [[f]]) == seq(|a|, i requires 0 <= i < |a| => a[i] + [f])
  {
    if a != [] {
      CrossFactor(a[1..], f);
      assert seq(1, j requires 0 <= j < 1 => a[0] + [[f]][j]) == [a[0] + [f]];
    }
  }

  function Power(ms: seq<seq<Expr>>, n: nat): seq<seq<Expr>>
  {
    if n == 0 then [[]] else Cross(ms, Power(ms, n - 1))
  }

  /** The products of the monomials. */
  function Monomials(ms: seq<seq<Expr>>): (r: seq<Expr>)
    ensures |r| == |ms|
  {
    seq(|ms|, i requires 0 <= i < |ms| => MulOf(ms[i]))
  }

  /** `sm.expand(e)` as an expression: the sum of the products of its monomials. */
  function ExpandExpr(e: Expr): Expr
  {
    SumOf(Monomials(Expand(e)))
  }

  // ---------------------------------------------------------------------
  // What expansion keeps: the leaves of the tree become the factors

  /** Every leaf of `e` (an atom or a power of an atom) satisfies `P`. */
  predicate AllLeaves(e: Expr, P: Expr -> bool)
  {
    match e
    case Add(ts) => forall i :: 0 <= i < |ts| ==> AllLeaves(ts[i], P)
    case Mul(fs) => forall i :: 0 <= i < |fs| ==> AllLeaves(fs[i], P)
    case Pow(b, _) => if Atomic(b) then P(e) else AllLeaves(b, P)
    case Num(c) => forall m, f :: m in ConstantMonomials(c) && f in m ==> P(f)
    case _ => P(e)
  }

  /** Every factor of every monomial is a factor in the sense of `IsFactor` and satisfies `P`. */
  predicate GoodMonomials(ms: seq<seq<Expr>>, P: Expr -> bool)
  {
    forall i, j :: 0 <= i < |ms| && 0 <= j < |ms[i]| ==> IsFactor(ms[i][j]) && P(ms[i][j])
  }

  lemma {:induction false} CrossGood(a: seq<seq<Expr>>, b: seq<seq<Expr>>, P: Expr -> bool)
    requires GoodMonomials(a, P) && GoodMonomials(b, P)
    ensures GoodMonomials(Cross(a, b), P)
  {
    if a != [] {
      var head := seq(|b|, j requires 0 <= j < |b| => a[0] + b[j]);
      assert GoodMonomials(head, P) by {
        forall i, j | 0 <= i < |head| && 0 <= j < |head[i]|
          ensures IsFactor(head[i][j]) && P(head[i][j])
        {
          if j < |a[0]| { assert head[i][j] == a[0][j]; }
          else { assert head[i][j] == b[i][j - |a[0]|]; }
        }
      }
      assert GoodMonomials(a[1..], P) by {
        forall i, j | 0 <= i < |a[1..]| && 0 <= j < |a[1..][i]|
          ensures IsFactor(a[1..][i][j]) && P(a[1..][i][j])
        {
          assert a[1..][i] == a[i + 1];
        }
      }
      CrossGood(a[1..], b, P);
      var r := Cross(a, b);
      assert r == head + Cross(a[1..], b);
      forall i, j | 0 <= i < |r| && 0 <= j < |r[i]| ensures IsFactor(r[i][j]) && P(r[i][j]) {
        if i < |head| { assert r[i] == head[i]; } else { assert r[i] == Cross(a[1..], b)[i - |head|]; }
      }
    }
  }

  lemma {:induction false} PowerGood(ms: seq<seq<Expr>>, n: nat, P: Expr -> bool)
    requires GoodMonomials(ms, P)
    ensures GoodMonomials(Power(ms, n), P)
  {
    if n > 0 {
      PowerGood(ms, n - 1, P);
      CrossGood(ms, Power(ms, n - 1), P);
    }
  }

  lemma ConstantGood(c: Complex, P: Expr -> bool)
    requires AllLeaves(Num(c), P)
    ensures GoodMonomials(ConstantMonomials(c), P)
  {
    var ms := ConstantMonomials(c);
    forall i, j | 0 <= i < |ms| && 0 <= j < |ms[i]| ensures IsFactor(ms[i][j]) && P(ms[i][j]) {
      assert ms[i] in ms && ms[i][j] in ms[i];
    }
  }

  /** Expansion turns the leaves of `e`, and only those, into factors. */
  lemma {:induction false} ExpandGood(e: Expr, P: Expr -> bool)
    requires AllLeaves(e, P)
    ensures GoodMonomials(Expand(e), P)
    decreases e, 1
  {
    match e
    case Add(ts) => ExpandSumGood(ts, P);
    case Mul(fs) => ExpandProductGood(fs, P);
    case Pow(b, n) =>
      if !Atomic(b) {
        ExpandGood(b, P);
        PowerGood(Expand(b), n, P);
      }
    case Num(c) => ConstantGood(c, P);
    case _ =>
  }

  lemma {:induction false} ExpandSumGood(ts: seq<Expr>, P: Expr -> bool)
    requires forall i :: 0 <= i < |ts| ==> AllLeaves(ts[i], P)
    ensures GoodMonomials(ExpandSum(ts), P)
    decreases ts, 0
  {
    if ts != [] {
      ExpandGood(ts[0], P);
      assert forall i :: 0 <= i < |ts[1..]| ==> ts[1..][i] == ts[i + 1];
      ExpandSumGood(ts[1..], P);
      var a, b := Expand(ts[0]), ExpandSum(ts[1..]);
      forall i, j | 0 <= i < |a + b| && 0 <= j < |(a + b)[i]|
        ensures IsFactor((a + b)[i][j]) && P((a + b)[i][j])
      {
        if i < |a| { assert (a + b)[i] == a[i]; } else { assert (a + b)[i] == b[i - |a|]; }
      }
    }
  }

  lemma {:induction false} ExpandProductGood(fs: seq<Expr>, P: Expr -> bool)
    requires forall i :: 0 <= i < |fs| ==> AllLeaves(fs[i], P)
    ensures GoodMonomials(ExpandProduct(fs), P)
    decreases fs, 0
  {
    if fs != [] {
      ExpandGood(fs[0], P);
      assert forall i :: 0 <= i < |fs[1..]| ==> fs[1..][i] == fs[i + 1];
      ExpandProductGood(fs[1..], P);
      CrossGood(Expand(fs[0]), ExpandProduct(fs[1..]), P);
    }
  }

  lemma FactorLeaves(f: Expr, P: Expr -> bool)
    requires IsFactor(f) && P(f)
    ensures AllLeaves(f, P) && !f.Add? && !f.Mul?
  {
  }

  /**
   * Expanding keeps every leaf property that also holds of the constants 0
   * and 1 (the empty sum and the empty product).
   */
  lemma ExpandExprLeaves(e: Expr, P: Expr -> bool)
    requires AllLeaves(e, P) && P(Num(Int(0))) && P(Num(Int(1)))
    ensures AllLeaves(ExpandExpr(e), P)
  {
    var ms := Expand(e);
    ExpandGood(e, P);
    var ts := Monomials(ms);
    forall i | 0 <= i < |ts| ensures AllLeaves(ts[i], P) {
      var m := ms[i];
      if |m| == 1 { FactorLeaves(m[0], P); }
      else if |m| >= 2 {
        forall j | 0 <= j < |m| ensures AllLeaves(m[j], P) { FactorLeaves(m[j], P); }
      }
    }
  }

  /**
   * The summands of an expanded expression are never sums, and each of
   * their factors is an atom or a power of an atom satisfying every leaf
   * property of the input (and of 0 and 1).
   */
  lemma SummandsOfExpanded(e: Expr, P: Expr -> bool)
    requires AllLeaves(e, P) && P(Num(Int(0))) && P(Num(Int(1)))
    ensures forall t :: t in Summands(ExpandExpr(e)) ==>
      !t.Add? && forall f :: f in Factors(t) ==> IsFactor(f) && P(f)
  {
    var ms := Expand(e);
    ExpandGood(e, P);
    var ts := Monomials(ms);
    forall i | 0 <= i < |ts|
      ensures !ts[i].Add? && forall f :: f in Factors(ts[i]) ==> IsFactor(f) && P(f)
    {
      var m := ms[i];
      if |m| == 1 { FactorLeaves(m[0], P); }
    }
    if |ts| == 1 {
      assert Summands(ExpandExpr(e)) == [ts[0]];
    }
  }

  // ---------------------------------------------------------------------
  // Expanding twice is expanding once

  /** The product of an expanded monomial expands to itself. */
  lemma {:induction false} ExpandProductOfFactors(m: seq<Expr>)
    requires forall j :: 0 <= j < |m| ==> IsFactor(m[j])
    ensures ExpandProduct(m) == [m]
  {
    if m != [] {
      assert forall j :: 0 <= j < |m[1..]| ==> m[1..][j] == m[j + 1];
      ExpandProductOfFactors(m[1..]);
      ExpandFactor(m[0]);
      assert [m[0]] + m[1..] == m;
    }
  }

  lemma ExpandFactor(f: Expr)
    requires IsFactor(f)
    ensures Expand(f) == [[f]]
  {
    match f
    case Pow(b, n) =>
    case _ =>
  }

  /** The empty monomial read back as the factor 1. */
  function NonEmpty(m: seq<Expr>): seq<Expr>
  {
    if m == [] then [Num(Int(1))] else m
  }

  lemma ExpandMonomial(m: seq<Expr>)
    requires forall j :: 0 <= j < |m| ==> IsFactor(m[j])
    ensures Expand(MulOf(m)) == [NonEmpty(m)]
  {
    if |m| >= 2 { ExpandProductOfFactors(m); }
    else if |m| == 1 { ExpandFactor(m[0]); assert m == [m[0]]; }
  }

  lemma {:induction false} ExpandSumOfMonomials(ms: seq<seq<Expr>>)
    requires forall i, j :: 0 <= i < |ms| && 0 <= j < |ms[i]| ==> IsFactor(ms[i][j])
    ensures ExpandSum(Monomials(ms)) == seq(|ms|, i requires 0 <= i < |ms| => NonEmpty(ms[i]))
  {
    if ms != [] {
      ExpandMonomial(ms[0]);
      assert Monomials(ms)[1..] == Monomials(ms[1..]);
      ExpandSumOfMonomials(ms[1..]);
    }
  }

  lemma {:induction false} AllLeavesOfValid(e: Expr, P: Expr -> bool)
    requires forall f :: P(f)
    ensures AllLeaves(e, P)
  {
    match e
    case Add(ts) => forall i | 0 <= i < |ts| ensures AllLeaves(ts[i], P) { AllLeavesOfValid(ts[i], P); }
    case Mul(fs) => forall i | 0 <= i < |fs| ensures AllLeaves(fs[i], P) { AllLeavesOfValid(fs[i], P); }
    case Pow(b, _) => AllLeavesOfValid(b, P);
    case _ =>
  }

  /** `sm.expand` is idempotent, so expanding the product a second time changes nothing. */
  lemma ExpandIdempotent(e: Expr)
    ensures ExpandExpr(ExpandExpr(e)) == ExpandExpr(e)
  {
    var ms := Expand(e);
    AllLeavesOfValid(e, _ => true);
    ExpandGood(e, _ => true);
    var ts := Monomials(ms);
    var fixed := seq(|ms|, i requires 0 <= i < |ms| => NonEmpty(ms[i]));
    assert Monomials(fixed) == ts;
    if |ms| == 0 {
    } else if |ms| == 1 {
      ExpandMonomial(ms[0]);
      assert Expand(ExpandExpr(e)) == fixed;
    } else {
      ExpandSumOfMonomials(ms);
    }
  }
}
