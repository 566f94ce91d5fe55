/**
 * The standalone `moyalstar.py`: the same pipeline as the package, with a
 * `bopp` that first refuses an input already holding an operator symbol,
 * and a `star` that does not check its operands for commutativity.
 * `make_prime`, `_first_index_and_diff_order`, `_replace_diff` and
 * `_eval_star` are the package's, and are shared with module `Core`.
 */
module Standalone {
  import opened Exprs
  import opened Normalise
  import Core

  /**
   * `bopp(q, left)`: "Already Bopp shifted" when `DX` or `DP` occurs, then
   * the commutativity check, then the package's shift.
   */
  function Bopp(q: Expr, left: bool): (r: Result<Expr>)
    ensures r.Failure? <==> !IsCommutative(q)
    ensures r.Failure? && HasOps(q) ==> r.error == AlreadyShifted
    ensures r.Failure? && !HasOps(q) ==> r.error == NotCommutative
    ensures r.Success? ==> r == Core.Bopp(q, left)
  {
    OpsAreNotCommutative(q);
    if HasOps(q) then Failure(AlreadyShifted)
    else if !IsCommutative(q) then Failure(NotCommutative)
    else Success(ExpandExpr(Core.Shift(q, left)))
  }

  /** Ties the operator check to the commutativity check it comes before. */
  lemma OpsAreNotCommutative(q: Expr)
    ensures HasOps(q) ==> !IsCommutative(q)
  {
    if IsCommutative(q) { CommutativeHasNoOps(q); }
  }

  /**
   * The guards of `star(A, B, do)` and its expanded Bopp-shifted product:
   * only the operand that is Bopp-shifted is checked, by `bopp` itself; the
   * primed operand is not.
   */
  function Product(a: Expr, b: Expr): Result<Expr>
  {
    if HasFunction(a) && HasFunction(b) then Failure(BothHaveFunction)
    else if HasFunction(a) then
      match Bopp(b, true)
      case Failure(e) => Failure(e)
      case Success(bb) => Success(ExpandExpr(Mul([bb, Core.MakePrime(a)])))
    else
      match Bopp(a, false)
      case Failure(e) => Failure(e)
      case Success(aa) => Success(ExpandExpr(Mul([aa, Core.MakePrime(b)])))
  }

  /** `star(A, B, do)` with the term loop of `_eval_star` as intended. */
  function Star(a: Expr, b: Expr, do: bool, doit: Expr -> Expr): Result<Expr>
  {
    match Product(a, b)
    case Failure(e) => Failure(e)
    case Success(q) => Core.EvalStar(q, do, doit)
  }

  /** `star(A, B, do)` as written: `_eval_star` loops over `q.args`. */
  function StarAsWritten(a: Expr, b: Expr, do: bool, doit: Expr -> Expr): Result<Expr>
  {
    match Product(a, b)
    case Failure(e) => Failure(e)
    case Success(q) => Core.EvalStarAsWritten(q, do, doit)
  }

  /** On commutative operands the standalone `star` as written is the package's `star` as written. */
  lemma StarAsWrittenAgrees(a: Expr, b: Expr, do: bool, doit: Expr -> Expr)
    requires IsCommutative(a) && IsCommutative(b)
    ensures StarAsWritten(a, b, do, doit) == Core.StarAsWritten(a, b, do, doit)
  {
  }

  /** `star(sm.Integer(2), x, do=False)`: as written the factors of `2*x'` are added up. */
  lemma StarOfScalarAsWritten(doit: Expr -> Expr)
    ensures StarAsWritten(Num(Int(2)), Var(X), false, doit) == Success(Add([Num(Int(2)), Var(XPrime)]))
    ensures Star(Num(Int(2)), Var(X), false, doit) == Success(Mul([Num(Int(2)), Var(XPrime)]))
  {
    StarAsWrittenAgrees(Num(Int(2)), Var(X), false, doit);
    StarAgrees(Num(Int(2)), Var(X), false, doit);
    Core.StarOfScalarAsWritten(doit);
  }

  /** `star(sm.I/2, x, do=False)`: as written the factors of `1/2 * I * x'` are added up. */
  lemma StarOfImaginaryScalarAsWritten(doit: Expr -> Expr)
    ensures StarAsWritten(Num(HalfI), Var(X), false, doit)
      == Success(Add([Num(Complex(1, 0, 2)), Num(ImagUnit), Var(XPrime)]))
    ensures Star(Num(HalfI), Var(X), false, doit)
      == Success(Mul([Num(Complex(1, 0, 2)), Num(ImagUnit), Var(XPrime)]))
  {
    StarAsWrittenAgrees(Num(HalfI), Var(X), false, doit);
    StarAgrees(Num(HalfI), Var(X), false, doit);
    Core.StarOfImaginaryScalarAsWritten(doit);
  }

  /** On commutative operands the two versions of `star` agree. */
  lemma StarAgrees(a: Expr, b: Expr, do: bool, doit: Expr -> Expr)
    requires IsCommutative(a) && IsCommutative(b)
    ensures Star(a, b, do, doit) == Core.Star(a, b, do, doit)
  {
  }

  /**
   * The standalone `star` fails exactly when both operands hold a function
   * or the shifted one is not commutative.
   */
  lemma StarGuards(a: Expr, b: Expr, do: bool, doit: Expr -> Expr)
    ensures Star(a, b, do, doit).Failure? <==>
      (HasFunction(a) && HasFunction(b)) || !IsCommutative(if HasFunction(a) then b else a)
  {
    if !(HasFunction(a) && HasFunction(b)) {
      var shifted, primed := if HasFunction(a) then b else a, if HasFunction(a) then a else b;
      if IsCommutative(shifted) {
        var left := HasFunction(a);
        var m := if left then Mul([Bopp(b, true).value, Core.MakePrime(a)]) else Mul([Bopp(a, false).value, Core.MakePrime(b)]);
        Core.EvalStarSucceeds(ExpandExpr(m), do, doit);
      }
    }
  }

  /**
   * `star(sm.S(1), x', do=False)`: the package refuses the primed operand;
   * the standalone module has no such guard, shifts `1`, multiplies, and the
   * loop as intended evaluates the product.
   */
  lemma StarAcceptsPrimed(doit: Expr -> Expr)
    ensures Core.Star(Num(Int(1)), Var(XPrime), false, doit) == Failure(NotCommutative)
    ensures Star(Num(Int(1)), Var(XPrime), false, doit).Success?
  {
    var one := Num(Int(1));
    assert !IsCommutative(Var(XPrime));
    assert IsCommutative(one) && !HasOps(one);
    var m := Mul([Bopp(one, false).value, Core.MakePrime(Var(XPrime))]);
    Core.EvalStarSucceeds(ExpandExpr(m), false, doit);
  }
}
