/**
 * The Bopp-shift / star-product rewriting pipeline of the package version,
 * moyalstar/core.py: priming (`make_prime`), the Bopp shift (`bopp`), the
 * scan for the first derivative-operator factor, the rewriting of a
 * product into nested derivatives (`_replace_diff`), the termwise
 * evaluation (`_eval_star`) and the star product itself (`star`).
 *
 * The symbols are bound as intended (`I, x, p, x', p', DX, DP`); see module
 * Symbols for the unpacking as written.  SymPy's `doit` is a parameter.
 */
module Core {
  import opened Exprs
  import opened Normalise

  // ---------------------------------------------------------------------
  // make_prime: x -> x_0 -> x', p -> p_0 -> p'

  function ToTemps(): map<Sym, Expr> { map[X := Var(X0), P := Var(P0)] }

  function TempsToPrimes(): map<Sym, Expr> { map[X0 := Var(XPrime), P0 := Var(PPrime)] }

  /** The renaming `make_prime` is meant to perform, in one step. */
  function PrimeMap(): map<Sym, Expr> { map[X := Var(XPrime), P := Var(PPrime)] }

  /** The final `.subs({xx: x, pp: p})` of `_eval_star`. */
  function UnprimeMap(): map<Sym, Expr> { map[XPrime := Var(X), PPrime := Var(P)] }

  function MakePrime(q: Expr): Expr
  {
    Subs(Subs(q, ToTemps()), TempsToPrimes())
  }

  function Unprime(q: Expr): Expr
  {
    Subs(q, UnprimeMap())
  }

  /** Without the temporaries in the input, the two stages are the plain renaming x -> x', p -> p'. */
  lemma {:induction false} MakePrimeIsRenaming(q: Expr)
    requires !Occurs(X0, q) && !Occurs(P0, q)
    ensures MakePrime(q) == Subs(q, PrimeMap())
  {
    assert TempsToPrimes().Keys == {X0, P0};
    assert SymbolMap(ToTemps()) && SymbolMap(TempsToPrimes());
    SubsCompose(q, ToTemps(), TempsToPrimes());
    ComposeTemps();
  }

  lemma ComposeTemps()
    ensures Compose(ToTemps(), TempsToPrimes()) == PrimeMap()
  {
    var c := Compose(ToTemps(), TempsToPrimes());
    assert c.Keys == {X, P};
    assert c[X] == Subs(Var(X0), TempsToPrimes()) == Var(XPrime);
    assert c[P] == Subs(Var(P0), TempsToPrimes()) == Var(PPrime);
  }

  /** A symbol that a substitution maps to an expression brings that expression's symbols in. */
  lemma {:induction false} OccursBrought(e: Expr, m: map<Sym, Expr>, s: Sym, t: Sym)
    requires SymbolMap(m) || DerivFree(e)
    requires s in m && Occurs(s, e) && Occurs(t, m[s])
    ensures Occurs(t, Subs(e, m))
  {
    match e
    case Num(_) =>
    case Var(_) =>
    case Add(ts) =>
      var i :| 0 <= i < |ts| && Occurs(s, ts[i]);
      OccursBrought(ts[i], m, s, t);
      assert Subs(e, m).terms[i] == Subs(ts[i], m);
    case Mul(fs) =>
      var i :| 0 <= i < |fs| && Occurs(s, fs[i]);
      OccursBrought(fs[i], m, s, t);
      assert Subs(e, m).factors[i] == Subs(fs[i], m);
    case Pow(b, _) => OccursBrought(b, m, s, t);
    case Apply(_, xs) =>
      var i :| 0 <= i < |xs| && Occurs(s, xs[i]);
      OccursBrought(xs[i], m, s, t);
      assert Subs(e, m).args[i] == Subs(xs[i], m);
    case Deriv(b, vs) =>
      if Occurs(s, b) {
        OccursBrought(b, m, s, t);
      } else {
        var i :| 0 <= i < |vs| && vs[i] == s;
        assert Subs(e, m).vars[i] == t;
      }
  }

  /** Where a symbol of `Subs(q, ToTemps())` comes from. */
  lemma {:induction false} TempsOrigin(q: Expr, s: Sym)
    requires Occurs(s, Subs(q, ToTemps()))
    ensures s != X && s != P
    ensures s == X0 ==> Occurs(X, q) || Occurs(X0, q)
    ensures s == P0 ==> Occurs(P, q) || Occurs(P0, q)
    ensures s != X0 && s != P0 ==> Occurs(s, q)
  {
    var m := ToTemps();
    assert SymbolMap(m);
    OccursAfterSubs(q, m, s);
    if !(s !in m && Occurs(s, q)) {
      var k :| k in m && Occurs(k, q) && Occurs(s, m[k]);
      if k == X {
        assert m[k] == Var(X0) && s == X0;
      } else {
        assert k == P && m[k] == Var(P0) && s == P0;
      }
    }
  }

  /** Where a symbol of `MakePrime(q)` comes from. */
  lemma {:induction false} MakePrimeOrigin(q: Expr, s: Sym)
    requires Occurs(s, MakePrime(q))
    ensures s !in {X, P, X0, P0}
    ensures s == XPrime ==> Occurs(X, q) || Occurs(X0, q) || Occurs(XPrime, q)
    ensures s == PPrime ==> Occurs(P, q) || Occurs(P0, q) || Occurs(PPrime, q)
    ensures s !in {XPrime, PPrime} ==> Occurs(s, q)
  {
    var q1, m := Subs(q, ToTemps()), TempsToPrimes();
    assert SymbolMap(m);
    OccursAfterSubs(q1, m, s);
    if s !in m && Occurs(s, q1) {
      TempsOrigin(q, s);
    } else {
      var k :| k in m && Occurs(k, q1) && Occurs(s, m[k]);
      if k == X0 {
        assert m[k] == Var(XPrime) && s == XPrime;
      } else {
        assert k == P0 && m[k] == Var(PPrime) && s == PPrime;
      }
      TempsOrigin(q, k);
    }
  }

  /** `x'` (or `p'`) is produced from `x`, from `x_0` and from `x'` itself. */
  lemma PrimedFrom(q: Expr, o: Sym, t: Sym, pr: Sym)
    requires (o, t, pr) == (X, X0, XPrime) || (o, t, pr) == (P, P0, PPrime)
    ensures Occurs(o, q) || Occurs(t, q) || Occurs(pr, q) ==> Occurs(pr, MakePrime(q))
  {
    var m1, m2 := ToTemps(), TempsToPrimes();
    var q1 := Subs(q, m1);
    assert m1[o] == Var(t) && m2[t] == Var(pr) && t !in m1 && pr !in m1 && pr !in m2;
    assert SymbolMap(m1) && SymbolMap(m2);
    if Occurs(o, q) { OccursBrought(q, m1, o, t); OccursBrought(q1, m2, t, pr); }
    else if Occurs(t, q) { OccursPreserved(q, m1, t); OccursBrought(q1, m2, t, pr); }
    else if Occurs(pr, q) { OccursPreserved(q, m1, pr); OccursPreserved(q1, m2, pr); }
  }

  /**
   * `make_prime` leaves no `x`, `p` (nor the temporaries) behind; `x'`
   * appears exactly where `x` (or `x_0`, or `x'` itself) was, likewise
   * `p'`; every other symbol is kept exactly where it was.
   */
  lemma {:induction false} MakePrimeSymbols(q: Expr, s: Sym)
    ensures s in {X, P, X0, P0} ==> !Occurs(s, MakePrime(q))
    ensures s == XPrime ==> (Occurs(s, MakePrime(q)) <==> Occurs(X, q) || Occurs(X0, q) || Occurs(XPrime, q))
    ensures s == PPrime ==> (Occurs(s, MakePrime(q)) <==> Occurs(P, q) || Occurs(P0, q) || Occurs(PPrime, q))
    ensures s !in {X, P, X0, P0, XPrime, PPrime} ==> (Occurs(s, MakePrime(q)) <==> Occurs(s, q))
  {
    if Occurs(s, MakePrime(q)) { MakePrimeOrigin(q, s); }
    if s == XPrime {
      PrimedFrom(q, X, X0, XPrime);
    } else if s == PPrime {
      PrimedFrom(q, P, P0, PPrime);
    } else if s !in {X, P, X0, P0} && Occurs(s, q) {
      var m1, m2 := ToTemps(), TempsToPrimes();
      OccursPreserved(q, m1, s);
      OccursPreserved(Subs(q, m1), m2, s);
    }
  }

  /** Priming and then unpriming gives back an expression that had no primes or temporaries. */
  lemma {:induction false} UnprimeMakePrime(q: Expr)
    requires !Occurs(XPrime, q) && !Occurs(PPrime, q) && !Occurs(X0, q) && !Occurs(P0, q)
    ensures Unprime(MakePrime(q)) == q
  {
    MakePrimeIsRenaming(q);
    assert UnprimeMap().Keys == {XPrime, PPrime} && PrimeMap().Keys == {X, P};
    assert SymbolMap(PrimeMap()) && SymbolMap(UnprimeMap());
    SubsCompose(q, PrimeMap(), UnprimeMap());
    var c := Compose(PrimeMap(), UnprimeMap());
    assert c[X] == Subs(Var(XPrime), UnprimeMap()) == Var(X);
    assert c[P] == Subs(Var(PPrime), UnprimeMap()) == Var(P);
    assert forall k :: k in c ==> k == X || k == P;
    SubsIdentity(q, c);
  }

  /** The temporaries are not fresh: a user's own `x_0` is primed as well. */
  lemma MakePrimeCapturesTemporary()
    ensures MakePrime(Var(X0)) == Var(XPrime)
    ensures MakePrime(Mul([Var(X0), Var(X)])) == Mul([Var(XPrime), Var(XPrime)])
  {
  }

  /** `.subs({xx: x, pp: p})` leaves no primed symbol. */
  lemma {:induction false} UnprimeSymbols(q: Expr)
    ensures !Occurs(XPrime, Unprime(q)) && !Occurs(PPrime, Unprime(q))
  {
    if Occurs(XPrime, Unprime(q)) { OccursAfterSubs(q, UnprimeMap(), XPrime); }
    if Occurs(PPrime, Unprime(q)) { OccursAfterSubs(q, UnprimeMap(), PPrime); }
  }

  // ---------------------------------------------------------------------
  // bopp: x -> x + sgn*(I/2)*DP, p -> p - sgn*(I/2)*DX, through x_0, p_0

  /** `sgn * I/2`, with `sgn = -1` exactly when the operator stands to the left. */
  function Weight(left: bool): Complex
  {
    if left then Neg(HalfI) else HalfI
  }

  /** The operator term `c * d`. */
  function OpTerm(c: Complex, d: Sym): Expr
  {
    Mul([Num(c), Var(d)])
  }

  /** The second stage of the shift, applied to the temporaries. */
  function ShiftMap(c: Complex): map<Sym, Expr>
  {
    map[X0 := Add([Var(X), OpTerm(c, DP)]), P0 := Add([Var(P), OpTerm(Neg(c), DX)])]
  }

  /** The same shift as one simultaneous substitution of `x` and `p`. */
  function DirectShift(c: Complex): map<Sym, Expr>
  {
    map[X := Add([Var(X), OpTerm(c, DP)]), P := Add([Var(P), OpTerm(Neg(c), DX)])]
  }

  /** The substitution of `bopp` before `sm.expand`. */
  function Shift(q: Expr, left: bool): Expr
  {
    Subs(Subs(q, ToTemps()), ShiftMap(Weight(left)))
  }

  function Bopp(q: Expr, left: bool): (r: Result<Expr>)
    ensures r.Failure? <==> !IsCommutative(q)
    ensures r.Failure? ==> r.error == NotCommutative
  {
    if !IsCommutative(q) then Failure(NotCommutative)
    else Success(ExpandExpr(Shift(q, left)))
  }

  lemma ComposeShift(c: Complex)
    ensures Compose(ToTemps(), ShiftMap(c)) == DirectShift(c)
  {
    var sm := ShiftMap(c);
    var cm := Compose(ToTemps(), sm);
    assert cm.Keys == {X, P};
    assert cm[X] == Subs(Var(X0), sm) == sm[X0];
    assert cm[P] == Subs(Var(P0), sm) == sm[P0];
  }

  /**
   * Going through the temporaries makes the substitution simultaneous: the
   * `x` and `p` inside the replacement terms are never substituted again.
   */
  lemma {:induction false} ShiftIsSimultaneous(q: Expr, left: bool)
    requires DerivFree(q) && !Occurs(X0, q) && !Occurs(P0, q)
    ensures Shift(q, left) == Subs(q, DirectShift(Weight(left)))
  {
    var c := Weight(left);
    var sm := ShiftMap(c);
    SubsCompose(q, ToTemps(), sm);
    ComposeShift(c);
  }

  /** An input without `x` and `p` comes back unchanged, apart from expansion. */
  lemma {:induction false} BoppWithoutCoordinates(q: Expr, left: bool)
    requires IsCommutative(q)
    requires !Occurs(X, q) && !Occurs(P, q) && !Occurs(X0, q) && !Occurs(P0, q)
    ensures Bopp(q, left) == Success(ExpandExpr(q))
  {
    SubsIdentity(q, ToTemps());
    SubsIdentity(q, ShiftMap(Weight(left)));
  }

  /** The symbols of one replacement term `v + c * d`. */
  lemma ShiftTermSymbols(v: Sym, c: Complex, d: Sym, s: Sym)
    ensures Occurs(s, Add([Var(v), OpTerm(c, d)])) <==> s == v || s == d
  {
    var e := Add([Var(v), OpTerm(c, d)]);
    var t := OpTerm(c, d);
    assert Occurs(s, t) <==> s == d by {
      if Occurs(s, t) { var j :| 0 <= j < 2 && Occurs(s, t.factors[j]); }
      if s == d { assert Occurs(s, t.factors[1]); }
    }
    if Occurs(s, e) { var i :| 0 <= i < 2 && Occurs(s, e.terms[i]); }
    if s == v { assert Occurs(s, e.terms[0]); }
    if s == d { assert Occurs(s, e.terms[1]); }
  }

  lemma ShiftImageSymbols(c: Complex, s: Sym)
    ensures Occurs(s, DirectShift(c)[X]) <==> s == X || s == DP
    ensures Occurs(s, DirectShift(c)[P]) <==> s == P || s == DX
  {
    assert DirectShift(c)[X] == Add([Var(X), OpTerm(c, DP)]);
    assert DirectShift(c)[P] == Add([Var(P), OpTerm(Neg(c), DX)]);
    ShiftTermSymbols(X, c, DP, s);
    ShiftTermSymbols(P, Neg(c), DX, s);
  }

  lemma {:induction false} ShiftOrigin(q: Expr, c: Complex, s: Sym)
    requires DerivFree(q) && !HasOps(q) && !Occurs(X0, q) && !Occurs(P0, q)
    requires Occurs(s, Subs(q, DirectShift(c)))
    ensures s != X0 && s != P0
    ensures s == DP ==> Occurs(X, q)
    ensures s == DX ==> Occurs(P, q)
  {
    var m := DirectShift(c);
    OccursAfterSubs(q, m, s);
    if !(s !in m && Occurs(s, q)) {
      var k :| k in m && Occurs(k, q) && Occurs(s, m[k]);
      ShiftImageSymbols(c, s);
    }
  }

  /**
   * After the shift no temporary is left, `DP` occurs exactly when `x`
   * did and `DX` exactly when `p` did.
   */
  lemma {:induction false} ShiftSymbols(q: Expr, left: bool)
    requires IsCommutative(q) && DerivFree(q) && !Occurs(X0, q) && !Occurs(P0, q)
    ensures !Occurs(X0, Shift(q, left)) && !Occurs(P0, Shift(q, left))
    ensures Occurs(DP, Shift(q, left)) <==> Occurs(X, q)
    ensures Occurs(DX, Shift(q, left)) <==> Occurs(P, q)
  {
    var c := Weight(left);
    var m := DirectShift(c);
    ShiftIsSimultaneous(q, left);
    CommutativeHasNoOps(q);
    var r := Subs(q, m);
    if Occurs(X0, r) { ShiftOrigin(q, c, X0); }
    if Occurs(P0, r) { ShiftOrigin(q, c, P0); }
    if Occurs(DP, r) { ShiftOrigin(q, c, DP); }
    if Occurs(DX, r) { ShiftOrigin(q, c, DX); }
    ShiftImageSymbols(c, DP);
    ShiftImageSymbols(c, DX);
    if Occurs(X, q) { OccursBrought(q, m, X, DP); }
    if Occurs(P, q) { OccursBrought(q, m, P, DX); }
  }

  /**
   * Negates the coefficient of every operator term `c * DX`, `c * DP`: the
   * difference between the right and the left Bopp shift.
   */
  function FlipOps(e: Expr): Expr
  {
    match e
    case Num(_) => e
    case Var(_) => e
    case Add(ts) => Add(seq(|ts|, i requires 0 <= i < |ts| => FlipOps(ts[i])))
    case Mul(fs) =>
      if |fs| == 2 && fs[0].Num? && (fs[1] == Var(DX) || fs[1] == Var(DP))
      then Mul([Num(Neg(fs[0].c)), fs[1]])
      else Mul(seq(|fs|, i requires 0 <= i < |fs| => FlipOps(fs[i])))
    case Pow(b, n) => Pow(FlipOps(b), n)
    case Apply(f, xs) => Apply(f, seq(|xs|, i requires 0 <= i < |xs| => FlipOps(xs[i])))
    case Deriv(b, vs) => Deriv(FlipOps(b), vs)
  }

  /** The image of one symbol: only the operator term's sign changes. */
  lemma FlipShiftedSymbol(s: Sym, c: Complex)
    ensures FlipOps(Subs(Var(s), DirectShift(c))) == Subs(Var(s), DirectShift(Neg(c)))
  {
    if s == X {
      assert FlipOps(OpTerm(c, DP)) == OpTerm(Neg(c), DP);
    } else if s == P {
      assert FlipOps(OpTerm(Neg(c), DX)) == OpTerm(Neg(Neg(c)), DX);
    }
  }

  /** A factor without operators is not turned into a bare operator by the shift. */
  lemma NotAnOperator(f: Expr, c: Complex)
    requires !HasOps(f)
    ensures Subs(f, DirectShift(c)) != Var(DX) && Subs(f, DirectShift(c)) != Var(DP)
  {
    if !f.Var? { SubsKeepsShape(f, DirectShift(c)); }
  }

  lemma {:induction false} FlipDirectShift(e: Expr, c: Complex)
    requires DerivFree(e) && !HasOps(e)
    ensures FlipOps(Subs(e, DirectShift(c))) == Subs(e, DirectShift(Neg(c)))
  {
    var m, m' := DirectShift(c), DirectShift(Neg(c));
    match e
    case Num(_) =>
    case Var(s) => FlipShiftedSymbol(s, c);
    case Add(ts) =>
      forall i | 0 <= i < |ts| ensures FlipOps(Subs(ts[i], m)) == Subs(ts[i], m') {
        assert !Occurs(DX, ts[i]) && !Occurs(DP, ts[i]);
        FlipDirectShift(ts[i], c);
      }
    case Mul(fs) =>
      forall i | 0 <= i < |fs| ensures FlipOps(Subs(fs[i], m)) == Subs(fs[i], m') {
        assert !Occurs(DX, fs[i]) && !Occurs(DP, fs[i]);
        FlipDirectShift(fs[i], c);
      }
      if |fs| == 2 {
        var g := Subs(fs[1], m);
        assert !Occurs(DX, fs[1]) && !Occurs(DP, fs[1]);
        NotAnOperator(fs[1], c);
      }
    case Pow(b, _) => FlipDirectShift(b, c);
    case Apply(_, xs) =>
      forall i | 0 <= i < |xs| ensures FlipOps(Subs(xs[i], m)) == Subs(xs[i], m') {
        assert !Occurs(DX, xs[i]) && !Occurs(DP, xs[i]);
        FlipDirectShift(xs[i], c);
      }
  }

  /**
   * The left and the right shift differ only in the sign of the operator
   * terms (compared before expansion).
   */
  lemma {:induction false} ShiftSigns(q: Expr)
    requires IsCommutative(q) && DerivFree(q) && !Occurs(X0, q) && !Occurs(P0, q)
    ensures Shift(q, true) == FlipOps(Shift(q, false))
  {
    ShiftIsSimultaneous(q, true);
    ShiftIsSimultaneous(q, false);
    CommutativeHasNoOps(q);
    FlipDirectShift(q, HalfI);
  }

  // ---------------------------------------------------------------------
  // _first_index_and_diff_order

  /**
   * The differentiation a factor stands for: `DX` or a power `DX**n`
   * differentiates in `x'` (once, or `n` times), and likewise `DP` in `p'`.
   * `DX` is tested before `DP`.
   */
  function OpOf(f: Expr): Option<(Sym, nat)>
  {
    if f == Var(DX) then Some((XPrime, 1))
    else if f.Pow? && f.base == Var(DX) then Some((XPrime, f.exp))
    else if f == Var(DP) then Some((PPrime, 1))
    else if f.Pow? && f.base == Var(DP) then Some((PPrime, f.exp))
    else None
  }

  /** Where `_replace_diff` cuts a product, and what derivative it takes there. */
  datatype Cut = Cut(index: nat, dvar: Sym, order: nat)

  /** The first operator factor of `fs`, if any. */
  function FirstOp(fs: seq<Expr>): (r: Option<Cut>)
    ensures r.None? <==> forall j :: 0 <= j < |fs| ==> OpOf(fs[j]).None?
    ensures r.Some? ==>
      && r.value.index < |fs|
      && OpOf(fs[r.value.index]) == Some((r.value.dvar, r.value.order))
      && forall j :: 0 <= j < r.value.index ==> OpOf(fs[j]).None?
  {
    if fs == [] then None
    else match OpOf(fs[0])
      case Some((v, k)) => Some(Cut(0, v, k))
      case None =>
        match FirstOp(fs[1..])
        case None => None
        case Some(c) => Some(Cut(c.index + 1, c.dvar, c.order))
  }

  /** `_first_index_and_diff_order(q)`: the scan over `q.args`, left to right, with early return. */
  method FirstIndexAndDiffOrder(q: Expr) returns (r: Option<Cut>)
    ensures r.None? <==> forall j :: 0 <= j < |Args(q)| ==> OpOf(Args(q)[j]).None?
    ensures r.Some? ==>
      && r.value.index < |Args(q)|
      && OpOf(Args(q)[r.value.index]) == Some((r.value.dvar, r.value.order))
      && forall j :: 0 <= j < r.value.index ==> OpOf(Args(q)[j]).None?
    ensures r == FirstOp(Args(q))
  {
    var args := Args(q);
    var idx := 0;
    while idx < |args|
      invariant 0 <= idx <= |args|
      invariant forall j :: 0 <= j < idx ==> OpOf(args[j]).None?
    {
      var qq := args[idx];
      if qq == Var(DX) {
        return Some(Cut(idx, XPrime, 1));
      }
      if qq.Pow? && qq.base == Var(DX) {
        return Some(Cut(idx, XPrime, qq.exp));
      }
      if qq == Var(DP) {
        return Some(Cut(idx, PPrime, 1));
      }
      if qq.Pow? && qq.base == Var(DP) {
        return Some(Cut(idx, PPrime, qq.exp));
      }
      idx := idx + 1;
    }
    return None;
  }

  // ---------------------------------------------------------------------
  // _replace_diff

  /**
   * `_replace_diff` as written: the factors are read off `q.args`, so a
   * summand that is a bare operator symbol has no arguments and is
   * returned as it is.
   */
  function ReplaceDiffAsWritten(q: Expr): Result<Expr>
    decreases Size(q)
  {
    if q.Add? then Failure(SumNotAllowed)
    else match FirstOp(Args(q))
      case None => Success(q)
      case Some(cut) =>
        var fs := Args(q);
        ArgsSmaller(q);
        SuffixSmaller(fs, cut.index);
        match ReplaceDiffAsWritten(MulOf(fs[cut.index + 1..]))
        case Failure(err) => Failure(err)
        case Success(inner) =>
          Success(MulOf(fs[..cut.index] + [Deriv(inner, Repeat(cut.dvar, cut.order))]))
  }

  /**
   * The rewriting of a list of factors: cut at the first operator factor,
   * keep the prefix and wrap the rest, recursively, in the derivative the
   * operator stands for.  Terminates because the rest is strictly shorter.
   */
  function ReplaceFactors(fs: seq<Expr>): Expr
    decreases |fs|
  {
    match FirstOp(fs)
    case None => MulOf(fs)
    case Some(cut) =>
      MulOf(fs[..cut.index] + [Deriv(ReplaceFactors(fs[cut.index + 1..]), Repeat(cut.dvar, cut.order))])
  }

  /**
   * `_replace_diff` as intended: a summand that is not a product is read as
   * a product of one factor, so a bare `DX` becomes `Derivative(1, x')`.
   */
  function ReplaceDiff(q: Expr): (r: Result<Expr>)
    ensures r.Failure? <==> q.Add?
    ensures r.Failure? ==> r.error == SumNotAllowed
    ensures r.Success? && FirstOp(Factors(q)).None? ==> r.value == q
    ensures r.Success? ==> Placements(r.value, []) == Scoped(Factors(q), [])
    ensures r.Success? ==> forall v :: DerivCount(r.value, v) == DerivCountAll(Factors(q), v) + OpOrder(Factors(q), v)
  {
    if q.Add? then Failure(SumNotAllowed)
    else
      ReplaceFactorsScope(Factors(q), []);
      TermCounts(q);
      if FirstOp(Factors(q)).None? then
        PlacementsMulOf(Factors(q), []);
        FactorsPlacements(q, []);
        Success(q)
      else Success(ReplaceFactors(Factors(q)))
  }

  /** A bare operator summand survives `_replace_diff` as written, but not as intended. */
  lemma BareOperatorSummand()
    ensures ReplaceDiffAsWritten(Var(DP)) == Success(Var(DP))
    ensures ReplaceDiff(Var(DP)) == Success(Deriv(Num(Int(1)), [PPrime]))
    ensures ReplaceDiffAsWritten(Mul([Num(HalfI), Var(DP)])) == ReplaceDiff(Mul([Num(HalfI), Var(DP)]))
  {
    assert Args(Var(DP)) == [];
    assert FirstOp([Var(DP)]) == Some(Cut(0, PPrime, 1));
    assert [Var(DP)][1..] == [];
    assert Repeat(PPrime, 1) == [PPrime];
    var fs := [Num(HalfI), Var(DP)];
    assert FirstOp(fs[1..]) == Some(Cut(0, PPrime, 1));
    assert FirstOp(fs) == Some(Cut(1, PPrime, 1));
    assert fs[2..] == [];
    assert fs[..1] == [Num(HalfI)];
  }

  // ---------------------------------------------------------------------
  // What _replace_diff achieves

  /** A factor that is an operator factor, or holds no operator at all. */
  predicate FactorOK(f: Expr)
  {
    OpOf(f).Some? || !HasOps(f)
  }

  lemma MulOfOccurs(xs: seq<Expr>, s: Sym)
    ensures Occurs(s, MulOf(xs)) <==> exists j :: 0 <= j < |xs| && Occurs(s, xs[j])
  {
    if |xs| == 1 {
      if Occurs(s, xs[0]) { assert Occurs(s, xs[0]); }
    }
  }

  /** A derivative in `x'` or `p'` of an operator-free body holds no operator. */
  lemma DerivNoOps(inner: Expr, v: Sym, k: nat)
    requires !HasOps(inner) && (v == XPrime || v == PPrime)
    ensures !HasOps(Deriv(inner, Repeat(v, k)))
  {
    assert DX !in Repeat(v, k) && DP !in Repeat(v, k);
  }

  /** An operator-free prefix followed by an operator-free factor is operator-free. */
  lemma PrefixNoOps(fs: seq<Expr>, i: nat, d: Expr)
    requires i <= |fs| && !HasOps(d)
    requires forall j :: 0 <= j < i ==> !HasOps(fs[j])
    ensures !HasOps(MulOf(fs[..i] + [d]))
  {
    var xs := fs[..i] + [d];
    assert forall j :: 0 <= j < |xs| ==> !HasOps(xs[j]) by {
      forall j | 0 <= j < |xs| ensures !HasOps(xs[j]) {
        if j < i { assert xs[j] == fs[j]; } else { assert xs[j] == d; }
      }
    }
    MulOfOccurs(xs, DX);
    MulOfOccurs(xs, DP);
  }

  /**
   * When every operator in the factors is itself an operator factor, the
   * rewriting leaves no operator symbol: each has become a derivative.
   */
  lemma {:induction false} ReplaceFactorsNoOps(fs: seq<Expr>)
    requires forall j :: 0 <= j < |fs| ==> FactorOK(fs[j])
    ensures !HasOps(ReplaceFactors(fs))
    decreases |fs|
  {
    match FirstOp(fs)
    case None =>
      MulOfOccurs(fs, DX);
      MulOfOccurs(fs, DP);
    case Some(cut) =>
      var i := cut.index;
      var suf := fs[i + 1..];
      assert forall j :: 0 <= j < |suf| ==> suf[j] == fs[i + 1 + j];
      ReplaceFactorsNoOps(suf);
      DerivNoOps(ReplaceFactors(suf), cut.dvar, cut.order);
      PrefixNoOps(fs, i, Deriv(ReplaceFactors(suf), Repeat(cut.dvar, cut.order)));
  }

  /** How often `v` is a differentiation variable in `e`. */
  function DerivCount(e: Expr, v: Sym): nat
  {
    match e
    case Num(_) => 0
    case Var(_) => 0
    case Add(ts) => DerivCountAll(ts, v)
    case Mul(fs) => DerivCountAll(fs, v)
    case Pow(b, _) => DerivCount(b, v)
    case Apply(_, xs) => DerivCountAll(xs, v)
    case Deriv(b, vs) => DerivCount(b, v) + multiset(vs)[v]
  }

  function DerivCountAll(es: seq<Expr>, v: Sym): nat
  {
    if es == [] then 0 else DerivCount(es[0], v) + DerivCountAll(es[1..], v)
  }

  /** The total order of the operator factors of `fs` that differentiate in `v`. */
  function OpOrder(fs: seq<Expr>, v: Sym): nat
  {
    if fs == [] then 0 else OpOrderOf(fs[0], v) + OpOrder(fs[1..], v)
  }

  lemma {:induction false} CountsAppend(a: seq<Expr>, b: seq<Expr>, v: Sym)
    ensures DerivCountAll(a + b, v) == DerivCountAll(a, v) + DerivCountAll(b, v)
    ensures OpOrder(a + b, v) == OpOrder(a, v) + OpOrder(b, v)
  {
    if a == [] {
      assert a + b == b;
    } else {
      assert (a + b)[1..] == a[1..] + b;
      CountsAppend(a[1..], b, v);
    }
  }

  lemma {:induction false} NoOpOrder(fs: seq<Expr>, v: Sym)
    requires forall j :: 0 <= j < |fs| ==> OpOf(fs[j]).None?
    ensures OpOrder(fs, v) == 0
  {
    if fs != [] {
      assert forall j :: 0 <= j < |fs[1..]| ==> fs[1..][j] == fs[j + 1];
      NoOpOrder(fs[1..], v);
    }
  }

  lemma MulOfCount(xs: seq<Expr>, v: Sym)
    ensures DerivCount(MulOf(xs), v) == DerivCountAll(xs, v)
  {
    if |xs| == 1 { assert xs[1..] == []; }
  }

  /** Orders contributed by one factor. */
  function OpOrderOf(f: Expr, v: Sym): nat
  {
    match OpOf(f) case Some((w, k)) => if w == v then k else 0 case None => 0
  }

  lemma SplitCounts(fs: seq<Expr>, i: nat, v: Sym)
    requires i < |fs|
    ensures DerivCountAll(fs, v) == DerivCountAll(fs[..i], v) + DerivCount(fs[i], v) + DerivCountAll(fs[i + 1..], v)
    ensures OpOrder(fs, v) == OpOrder(fs[..i], v) + OpOrderOf(fs[i], v) + OpOrder(fs[i + 1..], v)
  {
    var pre, f, suf := fs[..i], fs[i], fs[i + 1..];
    assert fs == pre + ([f] + suf);
    CountsAppend(pre, [f] + suf, v);
    CountsAppend([f], suf, v);
    assert [f][1..] == [];
  }

  lemma OpFactorCount(f: Expr, v: Sym)
    requires OpOf(f).Some?
    ensures DerivCount(f, v) == 0
  {
  }

  lemma WrapCount(pre: seq<Expr>, d: Expr, v: Sym)
    ensures DerivCount(MulOf(pre + [d]), v) == DerivCountAll(pre, v) + DerivCount(d, v)
  {
    MulOfCount(pre + [d], v);
    CountsAppend(pre, [d], v);
    assert DerivCountAll([d], v) == DerivCount(d, v) by { assert [d][1..] == []; }
  }

  lemma PrefixNoOpOrder(fs: seq<Expr>, i: nat, v: Sym)
    requires i <= |fs|
    requires forall j :: 0 <= j < i ==> OpOf(fs[j]).None?
    ensures OpOrder(fs[..i], v) == 0
  {
    assert forall j :: 0 <= j < |fs[..i]| ==> fs[..i][j] == fs[j];
    NoOpOrder(fs[..i], v);
  }

  /** One cut conserves the counts, given that the rest of the term does. */
  lemma CutCounts(fs: seq<Expr>, i: nat, w: Sym, k: nat, inner: Expr, v: Sym)
    requires i < |fs| && OpOf(fs[i]) == Some((w, k))
    requires forall j :: 0 <= j < i ==> OpOf(fs[j]).None?
    requires DerivCount(inner, v) == DerivCountAll(fs[i + 1..], v) + OpOrder(fs[i + 1..], v)
    ensures DerivCount(MulOf(fs[..i] + [Deriv(inner, Repeat(w, k))]), v) == DerivCountAll(fs, v) + OpOrder(fs, v)
  {
    RepeatCount(w, k, v);
    WrapCount(fs[..i], Deriv(inner, Repeat(w, k)), v);
    SplitCounts(fs, i, v);
    OpFactorCount(fs[i], v);
    PrefixNoOpOrder(fs, i, v);
  }

  /**
   * The rewriting turns each operator factor `DX**k` into `k`
   * differentiations in `x'` (likewise `DP` and `p'`), and adds no other:
   * derivatives are conserved.
   */
  lemma {:induction false} ReplaceFactorsCounts(fs: seq<Expr>, v: Sym)
    ensures DerivCount(ReplaceFactors(fs), v) == DerivCountAll(fs, v) + OpOrder(fs, v)
    decreases |fs|
  {
    match FirstOp(fs)
    case None =>
      NoOpOrder(fs, v);
      MulOfCount(fs, v);
    case Some(cut) =>
      ReplaceFactorsCounts(fs[cut.index + 1..], v);
      CutCounts(fs, cut.index, cut.dvar, cut.order, ReplaceFactors(fs[cut.index + 1..]), v);
  }

  /** `ReplaceFactorsCounts` for every variable at once, and for a term left as it is. */
  lemma TermCounts(q: Expr)
    ensures forall v :: DerivCount(ReplaceFactors(Factors(q)), v) == DerivCountAll(Factors(q), v) + OpOrder(Factors(q), v)
    ensures FirstOp(Factors(q)).None? ==>
      forall v :: DerivCount(q, v) == DerivCountAll(Factors(q), v) + OpOrder(Factors(q), v)
  {
    var fs := Factors(q);
    forall v ensures DerivCount(ReplaceFactors(fs), v) == DerivCountAll(fs, v) + OpOrder(fs, v) {
      ReplaceFactorsCounts(fs, v);
    }
    if FirstOp(fs).None? {
      forall v ensures DerivCount(q, v) == DerivCountAll(fs, v) + OpOrder(fs, v) {
        NoOpOrder(fs, v);
        if !q.Mul? { assert fs[1..] == []; }
      }
    }
  }

  // ---------------------------------------------------------------------
  // Where each factor ends up: the scope of every derivative

  /** A non-operator factor together with the derivative variables it sits under, outermost first. */
  datatype Placed = Placed(factor: Expr, under: seq<Sym>)

  /**
   * Reads a rewritten product back: a product contributes its factors in
   * order, a derivative adds its variables to the scope of its body, the
   * unit factor contributes nothing, and any other node is a factor placed
   * under the derivatives around it.
   */
  function Placements(e: Expr, scope: seq<Sym>): seq<Placed>
    decreases e, 1
  {
    match e
    case Mul(fs) => PlacementsAll(fs, scope)
    case Deriv(b, vs) => Placements(b, scope + vs)
    case _ => if e == Num(Int(1)) then [] else [Placed(e, scope)]
  }

  function PlacementsAll(fs: seq<Expr>, scope: seq<Sym>): seq<Placed>
    decreases fs, 0
  {
    if fs == [] then [] else Placements(fs[0], scope) + PlacementsAll(fs[1..], scope)
  }

  /**
   * The reference reading of a list of factors, left to right: an operator
   * factor of order k in x' or p' puts everything to its right under k more
   * derivatives in that variable; any other factor stays where it is.
   */
  function Scoped(fs: seq<Expr>, scope: seq<Sym>): seq<Placed>
    decreases |fs|
  {
    if fs == [] then []
    else match OpOf(fs[0])
      case Some((v, k)) => Scoped(fs[1..], scope + Repeat(v, k))
      case None => Placements(fs[0], scope) + Scoped(fs[1..], scope)
  }

  lemma {:induction false} PlacementsAppend(a: seq<Expr>, b: seq<Expr>, scope: seq<Sym>)
    ensures PlacementsAll(a + b, scope) == PlacementsAll(a, scope) + PlacementsAll(b, scope)
    decreases |a|
  {
    if a == [] {
      assert a + b == b;
    } else {
      assert (a + b)[1..] == a[1..] + b;
      PlacementsAppend(a[1..], b, scope);
    }
  }

  lemma PlacementsMulOf(fs: seq<Expr>, scope: seq<Sym>)
    ensures Placements(MulOf(fs), scope) == PlacementsAll(fs, scope)
  {
    if |fs| == 1 {
      assert fs[1..] == [];
    }
  }

  lemma FactorsPlacements(q: Expr, scope: seq<Sym>)
    ensures PlacementsAll(Factors(q), scope) == Placements(q, scope)
  {
    if !q.Mul? {
      assert [q][1..] == [];
    }
  }

  /** Without an operator factor the reference reading is the plain reading of each factor. */
  lemma {:induction false} ScopedWithoutOps(fs: seq<Expr>, rest: seq<Expr>, scope: seq<Sym>)
    requires forall j :: 0 <= j < |fs| ==> OpOf(fs[j]).None?
    ensures Scoped(fs + rest, scope) == PlacementsAll(fs, scope) + Scoped(rest, scope)
    decreases |fs|
  {
    if fs == [] {
      assert fs + rest == rest;
    } else {
      assert (fs + rest)[0] == fs[0];
      assert (fs + rest)[1..] == fs[1..] + rest;
      ScopedWithoutOps(fs[1..], rest, scope);
    }
  }

  lemma PlacementsWrap(pre: seq<Expr>, d: Expr, scope: seq<Sym>)
    ensures Placements(MulOf(pre + [d]), scope) == PlacementsAll(pre, scope) + Placements(d, scope)
  {
    PlacementsMulOf(pre + [d], scope);
    PlacementsAppend(pre, [d], scope);
    assert PlacementsAll([d], scope) == Placements(d, scope) by {
      assert [d][1..] == [];
    }
  }

  /** The reference reading at the first operator factor. */
  lemma ScopedAtCut(fs: seq<Expr>, i: nat, v: Sym, k: nat, scope: seq<Sym>)
    requires i < |fs| && OpOf(fs[i]) == Some((v, k))
    requires forall j :: 0 <= j < i ==> OpOf(fs[j]).None?
    ensures Scoped(fs, scope) == PlacementsAll(fs[..i], scope) + Scoped(fs[i + 1..], scope + Repeat(v, k))
  {
    var pre, rest := fs[..i], fs[i..];
    assert fs == pre + rest;
    assert forall j :: 0 <= j < |pre| ==> pre[j] == fs[j];
    ScopedWithoutOps(pre, rest, scope);
    assert rest[0] == fs[i] && rest[1..] == fs[i + 1..];
  }

  /** One cut: the prefix stays outside, the rest goes under the operator's derivative. */
  lemma CutScope(fs: seq<Expr>, i: nat, v: Sym, k: nat, inner: Expr, scope: seq<Sym>)
    requires i < |fs| && OpOf(fs[i]) == Some((v, k))
    requires forall j :: 0 <= j < i ==> OpOf(fs[j]).None?
    requires Placements(inner, scope + Repeat(v, k)) == Scoped(fs[i + 1..], scope + Repeat(v, k))
    ensures Placements(MulOf(fs[..i] + [Deriv(inner, Repeat(v, k))]), scope) == Scoped(fs, scope)
  {
    PlacementsWrap(fs[..i], Deriv(inner, Repeat(v, k)), scope);
    ScopedAtCut(fs, i, v, k, scope);
  }

  /**
   * `_replace_diff` keeps every non-operator factor, in order, and puts it
   * under exactly the derivatives of the operator factors to its left.
   */
  lemma {:induction false} ReplaceFactorsScope(fs: seq<Expr>, scope: seq<Sym>)
    ensures Placements(ReplaceFactors(fs), scope) == Scoped(fs, scope)
    decreases |fs|
  {
    match FirstOp(fs)
    case None =>
      PlacementsMulOf(fs, scope);
      ScopedWithoutOps(fs, [], scope);
      assert fs + [] == fs;
    case Some(cut) =>
      var rest := scope + Repeat(cut.dvar, cut.order);
      ReplaceFactorsScope(fs[cut.index + 1..], rest);
      CutScope(fs, cut.index, cut.dvar, cut.order, ReplaceFactors(fs[cut.index + 1..]), scope);
  }

  /** A factor to the left of every operator stays outside every derivative. */
  lemma ReplaceFactorsExample()
    ensures ReplaceFactors([Var(X), Var(DP), Var(PPrime)]) == Mul([Var(X), Deriv(Var(PPrime), [PPrime])])
    ensures Scoped([Var(X), Var(DP), Var(PPrime)], []) == [Placed(Var(X), []), Placed(Var(PPrime), [PPrime])]
  {
    var fs := [Var(X), Var(DP), Var(PPrime)];
    assert fs[1..][1..] == [Var(PPrime)];
    assert FirstOp([Var(PPrime)]) == None;
    assert FirstOp(fs[1..]) == Some(Cut(0, PPrime, 1));
    assert FirstOp(fs) == Some(Cut(1, PPrime, 1));
    assert fs[2..] == [Var(PPrime)];
    assert fs[..1] == [Var(X)];
    assert Repeat(PPrime, 1) == [PPrime];
    assert OpOf(Var(X)).None? && OpOf(Var(PPrime)).None?;
    assert Scoped([Var(PPrime)], [PPrime]) == [Placed(Var(PPrime), [PPrime])];
    assert Scoped(fs[1..], []) == Scoped([Var(PPrime)], [] + [PPrime]);
    assert [] + [PPrime] == [PPrime];
    assert Scoped(fs, []) == [Placed(Var(X), [])] + Scoped(fs[1..], []);
    assert [Placed(Var(X), [])] + [Placed(Var(PPrime), [PPrime])] == [Placed(Var(X), []), Placed(Var(PPrime), [PPrime])];
  }

  // ---------------------------------------------------------------------
  // _eval_star: expand, rewrite each term, add up, optionally evaluate

  /**
   * Every term rewritten by `rw`, left to right; the first failure is
   * raised and ends the walk.
   */
  function ReplaceAll(ts: seq<Expr>, rw: Expr -> Result<Expr>): (r: Result<seq<Expr>>)
    ensures r.Success? <==> forall i :: 0 <= i < |ts| ==> rw(ts[i]).Success?
    ensures r.Success? ==> |r.value| == |ts| && forall i :: 0 <= i < |ts| ==> rw(ts[i]) == Success(r.value[i])
  {
    if ts == [] then Success([])
    else match rw(ts[0])
      case Failure(e) => Failure(e)
      case Success(u) =>
        match ReplaceAll(ts[1..], rw)
        case Failure(e) => Failure(e)
        case Success(us) => Success([u] + us)
  }

  lemma {:induction false} ReplaceAllSnoc(ts: seq<Expr>, t: Expr, rw: Expr -> Result<Expr>)
    requires ReplaceAll(ts, rw).Success?
    ensures ReplaceAll(ts + [t], rw) ==
      match rw(t)
      case Failure(e) => Failure(e)
      case Success(u) => Success(ReplaceAll(ts, rw).value + [u])
  {
    if ts == [] {
      assert ts + [t] == [t] && [t][1..] == [];
      if rw(t).Success? {
        assert [rw(t).value] + [] == ts + [rw(t).value];
      }
    } else {
      assert (ts + [t])[0] == ts[0] && (ts + [t])[1..] == ts[1..] + [t];
      ReplaceAllSnoc(ts[1..], t, rw);
      var us := ReplaceAll(ts[1..], rw);
      if rw(t).Success? {
        var ws := ReplaceAll(ts, rw).value;
        assert ws == [ws[0]] + us.value;
        assert [ws[0]] + (us.value + [rw(t).value]) == ws + [rw(t).value];
      }
    }
  }

  /** The sum `_eval_star` builds from the rewritten terms. */
  function SumReplaced(ts: seq<Expr>, rw: Expr -> Result<Expr>): Result<Expr>
  {
    match ReplaceAll(ts, rw)
    case Failure(e) => Failure(e)
    case Success(us) => Success(SumOf(us))
  }

  /**
   * The loop of `_eval_star`: `out = 0; for qq in terms: out += rw(qq)`.
   * `out` is kept as the list of terms added so far.
   */
  method SumReplacedLoop(ts: seq<Expr>, rw: Expr -> Result<Expr>) returns (r: Result<Expr>)
    ensures r.Success? <==> forall i :: 0 <= i < |ts| ==> rw(ts[i]).Success?
    ensures r == SumReplaced(ts, rw)
  {
    var out: seq<Expr> := [];
    var i := 0;
    while i < |ts|
      invariant 0 <= i <= |ts|
      invariant ReplaceAll(ts[..i], rw) == Success(out)
    {
      var u := rw(ts[i]);
      ReplaceAllSnoc(ts[..i], ts[i], rw);
      assert ts[..i + 1] == ts[..i] + [ts[i]];
      if u.Failure? {
        // the first failing term: everything after it is never looked at
        FailureFirst(ts, i, rw);
        return Failure(u.error);
      }
      out := out + [u.value];
      i := i + 1;
    }
    assert ts[..i] == ts;
    return Success(SumOf(out));
  }

  /** A failure at `i` after a successful prefix is the failure of the whole walk. */
  lemma {:induction false} FailureFirst(ts: seq<Expr>, i: nat, rw: Expr -> Result<Expr>)
    requires i < |ts| && ReplaceAll(ts[..i], rw).Success? && rw(ts[i]).Failure?
    ensures ReplaceAll(ts, rw) == Failure(rw(ts[i]).error)
  {
    if i > 0 {
      assert ts[..i][1..] == ts[1..][..i - 1];
      FailureFirst(ts[1..], i - 1, rw);
    }
  }

  /** `out.doit().subs({xx: x, pp: p})`, with SymPy's `doit` as a parameter. */
  function Finish(out: Expr, doit: Expr -> Expr): (r: Expr)
    ensures !Occurs(XPrime, r) && !Occurs(PPrime, r)
  {
    UnprimeSymbols(doit(out));
    Unprime(doit(out))
  }

  /**
   * `_eval_star` as written: it walks `q.args` of the expanded expression,
   * which are its terms only when it is a sum.  `out` starts as the Python
   * int 0, which has no `.doit()` when there are no args, and to which the
   * `(variable, count)` pair after a derivative's body cannot be added.
   */
  function EvalStarAsWritten(q: Expr, do: bool, doit: Expr -> Expr): Result<Expr>
  {
    var e := ExpandExpr(q);
    match SumReplaced(Args(e), ReplaceDiffAsWritten)
    case Failure(err) => Failure(err)
    case Success(out) =>
      if e.Deriv? && e.vars != [] then Failure(TupleNotAddable)
      else if do && Args(e) == [] then Failure(IntHasNoDoit)
      else Success(if do then Finish(out, doit) else out)
  }

  /** `_eval_star` as intended: it walks the terms of the expanded expression. */
  function EvalStar(q: Expr, do: bool, doit: Expr -> Expr): Result<Expr>
  {
    match SumReplaced(Summands(ExpandExpr(q)), ReplaceDiff)
    case Failure(e) => Failure(e)
    case Success(out) => Success(if do then Finish(out, doit) else out)
  }

  /** The terms of an expansion are never sums, so the intended `_eval_star` never raises. */
  lemma EvalStarSucceeds(q: Expr, do: bool, doit: Expr -> Expr)
    ensures EvalStar(q, do, doit).Success?
  {
    var any: Expr -> bool := _ => true;
    AllLeavesOfValid(q, any);
    SummandsOfExpanded(q, any);
    var ts := Summands(ExpandExpr(q));
    assert forall i :: 0 <= i < |ts| ==> ts[i] in ts;
  }

  lemma {:induction false} ReplaceAllUnchanged(ts: seq<Expr>, rw: Expr -> Result<Expr>)
    requires forall i :: 0 <= i < |ts| ==> rw(ts[i]) == Success(ts[i])
    ensures ReplaceAll(ts, rw) == Success(ts)
  {
    if ts != [] {
      assert rw(ts[0]) == Success(ts[0]);
      ReplaceAllUnchanged(ts[1..], rw);
      assert [ts[0]] + ts[1..] == ts;
    }
  }

  /** A term whose args are constants comes through `_replace_diff` as written unchanged. */
  lemma ConstantArgsUnrewritten(t: Expr)
    requires !t.Add?
    requires forall j :: 0 <= j < |Args(t)| ==> Args(t)[j].Num?
    ensures ReplaceDiffAsWritten(t) == Success(t)
  {
    assert FirstOp(Args(t)) == None;
  }

  /** A term whose factors are constants comes through `_replace_diff` as intended unchanged. */
  lemma ConstantFactorsUnrewritten(t: Expr)
    requires !t.Add?
    requires forall j :: 0 <= j < |Factors(t)| ==> Factors(t)[j].Num?
    ensures ReplaceDiff(t) == Success(t)
  {
    assert FirstOp(Factors(t)) == None;
  }

  /** The parts of a constant, as SymPy holds it, are constants and its args are its terms or factors. */
  lemma ConstantParts(c: Complex)
    ensures var e := ExpandExpr(Num(c));
      && !e.Deriv?
      && Args(e) == (if NumAtom(c) then [] else Args(Num(c)))
      && (forall j :: 0 <= j < |Args(e)| ==>
            (!Args(e)[j].Add? && forall k :: 0 <= k < |Args(Args(e)[j])| ==> Args(Args(e)[j])[k].Num?))
      && (forall i :: 0 <= i < |Summands(e)| ==>
            (!Summands(e)[i].Add? && forall j :: 0 <= j < |Factors(Summands(e)[i])| ==> Factors(Summands(e)[i])[j].Num?))
  {
    var e := ExpandExpr(Num(c));
    var fs := ImagFactors(c.im, c.den);
    if NumAtom(c) {
      assert e == Num(c);
    } else if c.re == 0 {
      assert e == Mul(fs);
    } else {
      assert e == Add([Num(Complex(c.re, 0, c.den)), MulOf(fs)]);
    }
  }

  /**
   * A constant, held as SymPy holds it: as written its args are added up,
   * which is nothing for a rational or `I` (so `star(sm.Integer(2),
   * sm.Integer(3), do=False)` gives 0, and with `do` the int 0 has no
   * `.doit()`), `b + I` for `b*I`, and `a + b*I` for `a + b*I`; as intended
   * it comes back as it is.
   */
  lemma EvalStarOfConstant(c: Complex, doit: Expr -> Expr)
    ensures Args(ExpandExpr(Num(c))) == (if NumAtom(c) then [] else Args(Num(c)))
    ensures EvalStarAsWritten(Num(c), false, doit) == Success(SumOf(Args(Num(c))))
    ensures NumAtom(c) ==> EvalStarAsWritten(Num(c), false, doit) == Success(Num(Int(0)))
    ensures NumAtom(c) ==> EvalStarAsWritten(Num(c), true, doit) == Failure(IntHasNoDoit)
    ensures EvalStar(Num(c), false, doit) == Success(ExpandExpr(Num(c)))
    ensures NumAtom(c) ==> EvalStar(Num(c), false, doit) == Success(Num(c))
  {
    ConstantParts(c);
    ConstantAsWritten(c, doit);
    ConstantAsIntended(c, doit);
    if NumAtom(c) {
      assert ExpandExpr(Num(c)) == Num(c);
    }
  }

  lemma ConstantAsWritten(c: Complex, doit: Expr -> Expr)
    ensures EvalStarAsWritten(Num(c), false, doit) == Success(SumOf(Args(Num(c))))
    ensures NumAtom(c) ==> EvalStarAsWritten(Num(c), true, doit) == Failure(IntHasNoDoit)
  {
    var e := ExpandExpr(Num(c));
    ConstantParts(c);
    var a := Args(e);
    forall j | 0 <= j < |a| ensures ReplaceDiffAsWritten(a[j]) == Success(a[j]) {
      ConstantArgsUnrewritten(a[j]);
    }
    ReplaceAllUnchanged(a, ReplaceDiffAsWritten);
  }

  lemma ConstantAsIntended(c: Complex, doit: Expr -> Expr)
    ensures EvalStar(Num(c), false, doit) == Success(ExpandExpr(Num(c)))
  {
    var e := ExpandExpr(Num(c));
    ConstantParts(c);
    var ts := Summands(e);
    forall i | 0 <= i < |ts| ensures ReplaceDiff(ts[i]) == Success(ts[i]) {
      ConstantFactorsUnrewritten(ts[i]);
    }
    ReplaceAllUnchanged(ts, ReplaceDiff);
    assert SumOf(ts) == e;
  }

  /** `_eval_star(sm.I/2, do=False)`: as written the args of `Mul(1/2, I)` are added into `1/2 + I`. */
  lemma EvalStarOfImaginaryConstant(doit: Expr -> Expr)
    ensures EvalStarAsWritten(Num(HalfI), false, doit) == Success(Add([Num(Complex(1, 0, 2)), Num(ImagUnit)]))
  {
    EvalStarOfConstant(HalfI, doit);
  }

  /**
   * `_eval_star(Derivative(W(x', p'), x'), do=False)`: as written the body
   * is added to `out`, and then the pair `(x', 1)`, which raises; as
   * intended the term comes back unchanged.
   */
  lemma EvalStarOfDerivative(doit: Expr -> Expr)
    ensures EvalStarAsWritten(Deriv(Apply("W", [Var(XPrime), Var(PPrime)]), [XPrime]), false, doit)
      == Failure(TupleNotAddable)
    ensures EvalStar(Deriv(Apply("W", [Var(XPrime), Var(PPrime)]), [XPrime]), false, doit)
      == Success(Deriv(Apply("W", [Var(XPrime), Var(PPrime)]), [XPrime]))
  {
    var w := Apply("W", [Var(XPrime), Var(PPrime)]);
    var d := Deriv(w, [XPrime]);
    assert ExpandExpr(d) == d;
    assert Args(d) == [w];
    assert Args(w) == [Var(XPrime), Var(PPrime)];
    assert FirstOp([Var(PPrime)]) == None;
    assert FirstOp(Args(w)) == None;
    assert ReplaceDiffAsWritten(w) == Success(w);
    assert [w][1..] == [] && [w] + [] == [w];
    assert ReplaceAll([w], ReplaceDiffAsWritten) == Success([w]);
    assert [d][1..] == [] && [d] + [] == [d];
    assert FirstOp(Factors(d)) == None;
    assert ReplaceAll([d], ReplaceDiff) == Success([d]);
  }

  /** `star(sm.S(1), W(x, p), do=False)`: the args of `W(x', p')` are added up. */
  lemma EvalStarOfFunction(doit: Expr -> Expr)
    ensures EvalStarAsWritten(Apply("W", [Var(XPrime), Var(PPrime)]), false, doit)
      == Success(Add([Var(XPrime), Var(PPrime)]))
    ensures EvalStar(Apply("W", [Var(XPrime), Var(PPrime)]), false, doit)
      == Success(Apply("W", [Var(XPrime), Var(PPrime)]))
  {
    var w := Apply("W", [Var(XPrime), Var(PPrime)]);
    assert ExpandExpr(w) == w;
    assert Args(w) == [Var(XPrime), Var(PPrime)];
    assert ReplaceDiffAsWritten(Var(XPrime)) == Success(Var(XPrime));
    assert ReplaceDiffAsWritten(Var(PPrime)) == Success(Var(PPrime));
    assert [Var(PPrime)][1..] == [] && [w][1..] == [];
    assert [Var(XPrime), Var(PPrime)][1..] == [Var(PPrime)];
    assert [Var(PPrime)] + [] == [Var(PPrime)] && [w] + [] == [w];
    assert [Var(XPrime)] + [Var(PPrime)] == [Var(XPrime), Var(PPrime)];
    assert ReplaceAll([Var(PPrime)], ReplaceDiffAsWritten) == Success([Var(PPrime)]);
    assert ReplaceAll([Var(XPrime), Var(PPrime)], ReplaceDiffAsWritten) == Success([Var(XPrime), Var(PPrime)]);
    assert FirstOp(Factors(w)) == None;
    assert ReplaceAll([w], ReplaceDiff) == Success([w]);
  }

  /**
   * `star(sm.S(1), W(x + p, p))` (the unit is folded away, so `_eval_star`
   * receives `W(x'+p', p')`): as written the loop hands the argument
   * `x'+p'` to `_replace_diff`, which raises; as intended the single term
   * comes back unchanged.
   */
  lemma EvalStarOfSumArgument(doit: Expr -> Expr)
    ensures EvalStarAsWritten(Apply("W", [Add([Var(XPrime), Var(PPrime)]), Var(PPrime)]), false, doit)
      == Failure(SumNotAllowed)
    ensures EvalStar(Apply("W", [Add([Var(XPrime), Var(PPrime)]), Var(PPrime)]), false, doit)
      == Success(Apply("W", [Add([Var(XPrime), Var(PPrime)]), Var(PPrime)]))
  {
    var s := Add([Var(XPrime), Var(PPrime)]);
    var w := Apply("W", [s, Var(PPrime)]);
    assert ExpandExpr(w) == w;
    assert Args(w) == [s, Var(PPrime)];
    assert ReplaceDiffAsWritten(s) == Failure(SumNotAllowed);
    assert ReplaceAll([s, Var(PPrime)], ReplaceDiffAsWritten) == Failure(SumNotAllowed);
    assert [w][1..] == [] && [w] + [] == [w];
    assert FirstOp(Factors(w)) == None;
    assert ReplaceAll([w], ReplaceDiff) == Success([w]);
  }

  // ---------------------------------------------------------------------
  // star: guards, the Bopp-shifted product, then _eval_star

  /**
   * The expanded product `star` hands to `_eval_star`: the operand without
   * a function is Bopp-shifted (to the left of the primed one when it is
   * `B`, so `B * A`), the other is primed.
   */
  function StarProduct(a: Expr, b: Expr): Expr
    requires IsCommutative(a) && IsCommutative(b)
  {
    if HasFunction(a) then ExpandExpr(Mul([Bopp(b, true).value, MakePrime(a)]))
    else ExpandExpr(Mul([Bopp(a, false).value, MakePrime(b)]))
  }

  /**
   * `star(A, B, do)`: it raises when an operand is not commutative (carries
   * a primed symbol or an operator) and when both operands hold a function;
   * otherwise it always succeeds, and with `do` no primed symbol is left.
   */
  function Star(a: Expr, b: Expr, do: bool, doit: Expr -> Expr): (r: Result<Expr>)
    ensures r.Success? <==> IsCommutative(a) && IsCommutative(b) && !(HasFunction(a) && HasFunction(b))
    ensures r.Failure? && (!IsCommutative(a) || !IsCommutative(b)) ==> r.error == NotCommutative
    ensures r.Failure? && IsCommutative(a) && IsCommutative(b) ==> r.error == BothHaveFunction
    ensures r.Success? && do ==> !Occurs(XPrime, r.value) && !Occurs(PPrime, r.value)
  {
    if !IsCommutative(a) || !IsCommutative(b) then Failure(NotCommutative)
    else if HasFunction(a) && HasFunction(b) then Failure(BothHaveFunction)
    else
      var q := StarProduct(a, b);
      EvalStarSucceeds(q, do, doit);
      EvalStar(q, do, doit)
  }

  /** `star` with `_eval_star` as written. */
  function StarAsWritten(a: Expr, b: Expr, do: bool, doit: Expr -> Expr): Result<Expr>
  {
    if !IsCommutative(a) || !IsCommutative(b) then Failure(NotCommutative)
    else if HasFunction(a) && HasFunction(b) then Failure(BothHaveFunction)
    else EvalStarAsWritten(StarProduct(a, b), do, doit)
  }

  /**
   * `star(sm.Integer(2), x, do=False)`: the expanded product `2*x'` is not a
   * sum, so the code as written adds up its factors.
   */
  lemma StarOfScalarAsWritten(doit: Expr -> Expr)
    ensures StarAsWritten(Num(Int(2)), Var(X), false, doit) == Success(Add([Num(Int(2)), Var(XPrime)]))
    ensures Star(Num(Int(2)), Var(X), false, doit) == Success(Mul([Num(Int(2)), Var(XPrime)]))
  {
    var two, xp := Num(Int(2)), Var(XPrime);
    var fs := [two, xp];
    assert Shift(two, false) == two;
    assert ExpandExpr(two) == two;
    assert MakePrime(Var(X)) == xp;
    ExpandProductOfFactors(fs);
    assert StarProduct(two, Var(X)) == Mul(fs);
    assert FirstOp(fs) == None;
    assert ReplaceDiffAsWritten(two) == Success(two);
    assert ReplaceDiffAsWritten(xp) == Success(xp);
    ProductOfUnrewritten(fs, doit);
  }

  /**
   * `star(sm.I/2, x, do=False)`: SymPy holds `I/2` as `1/2 * I`, so the
   * expanded product is `1/2 * I * x'`, and the code as written adds up its
   * three factors.
   */
  lemma StarOfImaginaryScalarAsWritten(doit: Expr -> Expr)
    ensures StarAsWritten(Num(HalfI), Var(X), false, doit)
      == Success(Add([Num(Complex(1, 0, 2)), Num(ImagUnit), Var(XPrime)]))
    ensures Star(Num(HalfI), Var(X), false, doit)
      == Success(Mul([Num(Complex(1, 0, 2)), Num(ImagUnit), Var(XPrime)]))
  {
    assert IsCommutative(Num(HalfI)) && IsCommutative(Var(X)) && !HasFunction(Num(HalfI));
    ImaginaryScalarProduct();
    ScaledProductEval(Num(Complex(1, 0, 2)), Num(ImagUnit), doit);
  }

  /** Two constants times `x'`, already expanded: as written the three factors are added up. */
  lemma ScaledProductEval(k1: Expr, k2: Expr, doit: Expr -> Expr)
    requires k1.Num? && k2.Num? && NumAtom(k1.c) && NumAtom(k2.c)
    requires ExpandExpr(Mul([k1, k2, Var(XPrime)])) == Mul([k1, k2, Var(XPrime)])
    ensures EvalStarAsWritten(Mul([k1, k2, Var(XPrime)]), false, doit) == Success(Add([k1, k2, Var(XPrime)]))
    ensures EvalStar(Mul([k1, k2, Var(XPrime)]), false, doit) == Success(Mul([k1, k2, Var(XPrime)]))
  {
    var fs := [k1, k2, Var(XPrime)];
    assert FirstOp(fs) == None by {
      assert forall j :: 0 <= j < |fs| ==> OpOf(fs[j]) == None;
    }
    NoArgsUnrewritten(k1);
    NoArgsUnrewritten(k2);
    NoArgsUnrewritten(Var(XPrime));
    ProductOfUnrewritten(fs, doit);
  }

  lemma NoArgsUnrewritten(t: Expr)
    requires !t.Add? && Args(t) == []
    ensures ReplaceDiffAsWritten(t) == Success(t)
  {
  }

  /** The product `star` builds for `I/2 * x`, already expanded. */
  lemma ImaginaryScalarProduct()
    ensures var q := Mul([Num(Complex(1, 0, 2)), Num(ImagUnit), Var(XPrime)]);
      StarProduct(Num(HalfI), Var(X)) == q && ExpandExpr(q) == q
  {
    var h, i, xp := Num(Complex(1, 0, 2)), Num(ImagUnit), Var(XPrime);
    var c := Mul([h, i]);
    assert Shift(Num(HalfI), false) == Num(HalfI);
    assert ExpandExpr(Num(HalfI)) == c;
    assert MakePrime(Var(X)) == xp;
    assert Expand(c) == [[h, i]] by {
      ExpandProductOfFactors([h, i]);
    }
    ExpandProductOfFactors([xp]);
    CrossFactor([[h, i]], xp);
    assert [h, i] + [xp] == [h, i, xp];
    assert Expand(Mul([c, xp])) == [[h, i, xp]];
    ExpandProductOfFactors([h, i, xp]);
  }

  /**
   * An expanded product none of whose factors is an operator: as written
   * its factors are added up, as intended it comes back unchanged.
   */
  lemma ProductOfUnrewritten(fs: seq<Expr>, doit: Expr -> Expr)
    requires |fs| >= 2 && ExpandExpr(Mul(fs)) == Mul(fs) && FirstOp(fs) == None
    requires forall j :: 0 <= j < |fs| ==> ReplaceDiffAsWritten(fs[j]) == Success(fs[j])
    ensures EvalStarAsWritten(Mul(fs), false, doit) == Success(Add(fs))
    ensures EvalStar(Mul(fs), false, doit) == Success(Mul(fs))
  {
    ReplaceAllUnchanged(fs, ReplaceDiffAsWritten);
    assert ReplaceDiff(Mul(fs)) == Success(Mul(fs));
    ReplaceAllUnchanged([Mul(fs)], ReplaceDiff);
  }

  /** The product `star` builds for `(1 + I) * x`: SymPy's `x' + I*x'`, up to the unit coefficient. */
  lemma ComplexScalarProduct()
    ensures var q := Add([Mul([Num(Int(1)), Var(XPrime)]), Mul([Num(ImagUnit), Var(XPrime)])]);
      StarProduct(Num(Complex(1, 1, 1)), Var(X)) == q && ExpandExpr(q) == q
  {
    var one, i, xp := Num(Int(1)), Num(ImagUnit), Var(XPrime);
    var z := Num(Complex(1, 1, 1));
    assert Shift(z, false) == z;
    assert ExpandExpr(z) == Add([one, i]);
    assert MakePrime(Var(X)) == xp;
    assert Expand(Add([one, i])) == [[one], [i]] by {
      assert ExpandSum([i]) == [[i]];
      assert [one, i][1..] == [i];
    }
    ExpandProductOfFactors([xp]);
    CrossFactor([[one], [i]], xp);
    assert [one] + [xp] == [one, xp] && [i] + [xp] == [i, xp];
    assert Expand(Mul([Add([one, i]), xp])) == [[one, xp], [i, xp]];
    assert Monomials([[one, xp], [i, xp]]) == [Mul([one, xp]), Mul([i, xp])];
    ComplexScalarExpanded();
  }

  lemma ComplexScalarExpanded()
    ensures var q := Add([Mul([Num(Int(1)), Var(XPrime)]), Mul([Num(ImagUnit), Var(XPrime)])]);
      ExpandExpr(q) == q
  {
    var one, i, xp := Num(Int(1)), Num(ImagUnit), Var(XPrime);
    ExpandSumOfMonomials([[one, xp], [i, xp]]);
    assert Monomials([[one, xp], [i, xp]]) == [Mul([one, xp]), Mul([i, xp])];
  }

  /**
   * `star(1 + sm.I, x, do=False)`: `sm.expand` distributes the sum `1 + I`
   * over `x'`, so the expanded product is a sum and the code as written
   * walks its terms, as intended.
   */
  lemma StarOfComplexScalarAsWritten(doit: Expr -> Expr)
    ensures StarAsWritten(Num(Complex(1, 1, 1)), Var(X), false, doit)
      == Success(Add([Mul([Num(Int(1)), Var(XPrime)]), Mul([Num(ImagUnit), Var(XPrime)])]))
    ensures StarAsWritten(Num(Complex(1, 1, 1)), Var(X), false, doit)
      == Star(Num(Complex(1, 1, 1)), Var(X), false, doit)
  {
    var z := Num(Complex(1, 1, 1));
    assert IsCommutative(z) && IsCommutative(Var(X)) && !HasFunction(z);
    ComplexScalarProduct();
    ScaledSumEval(Num(Int(1)), Num(ImagUnit), doit);
  }

  /** Two scaled copies of `x'`, already expanded, come through `_eval_star` unchanged either way. */
  lemma ScaledSumEval(k1: Expr, k2: Expr, doit: Expr -> Expr)
    requires k1.Num? && k2.Num?
    requires ExpandExpr(Add([Mul([k1, Var(XPrime)]), Mul([k2, Var(XPrime)])])) == Add([Mul([k1, Var(XPrime)]), Mul([k2, Var(XPrime)])])
    ensures var q := Add([Mul([k1, Var(XPrime)]), Mul([k2, Var(XPrime)])]);
      EvalStarAsWritten(q, false, doit) == Success(q) && EvalStar(q, false, doit) == Success(q)
  {
    ScaledTermUnrewritten(k1);
    ScaledTermUnrewritten(k2);
    SumOfUnrewritten([Mul([k1, Var(XPrime)]), Mul([k2, Var(XPrime)])], doit);
  }

  /** An expanded sum whose terms `_replace_diff` leaves alone comes through `_eval_star` unchanged. */
  lemma SumOfUnrewritten(ts: seq<Expr>, doit: Expr -> Expr)
    requires |ts| >= 2 && ExpandExpr(Add(ts)) == Add(ts)
    requires forall i :: 0 <= i < |ts| ==> ReplaceDiffAsWritten(ts[i]) == Success(ts[i])
    requires forall i :: 0 <= i < |ts| ==> ReplaceDiff(ts[i]) == Success(ts[i])
    ensures EvalStarAsWritten(Add(ts), false, doit) == Success(Add(ts))
    ensures EvalStar(Add(ts), false, doit) == Success(Add(ts))
  {
    ReplaceAllUnchanged(ts, ReplaceDiffAsWritten);
    ReplaceAllUnchanged(ts, ReplaceDiff);
  }

  lemma ScaledTermUnrewritten(k: Expr)
    requires k.Num?
    ensures ReplaceDiffAsWritten(Mul([k, Var(XPrime)])) == Success(Mul([k, Var(XPrime)]))
    ensures ReplaceDiff(Mul([k, Var(XPrime)])) == Success(Mul([k, Var(XPrime)]))
  {
    assert FirstOp([k, Var(XPrime)]) == None;
  }

  // ---------------------------------------------------------------------
  // star removes every operator: each DX, DP becomes a derivative

  /** Every leaf is a good factor, and no function or derivative occurs. */
  predicate GoodLeaves(v: Expr)
  {
    AllLeaves(v, FactorOK) && !HasFunction(v) && DerivFree(v)
  }

  /** What a substitution may put in place of a symbol without spoiling the factors. */
  predicate GoodImage(v: Expr)
  {
    GoodLeaves(v) && (Atomic(v) ==> !HasOps(v))
  }

  lemma {:induction false} NoOpsLeaves(e: Expr)
    requires !HasOps(e)
    ensures AllLeaves(e, FactorOK)
  {
    match e
    case Add(ts) =>
      forall i | 0 <= i < |ts| ensures AllLeaves(ts[i], FactorOK) { NoOpsLeaves(ts[i]); }
    case Mul(fs) =>
      forall i | 0 <= i < |fs| ensures AllLeaves(fs[i], FactorOK) { NoOpsLeaves(fs[i]); }
    case Pow(b, _) =>
      if !Atomic(b) { NoOpsLeaves(b); }
    case _ =>
  }

  lemma {:induction false} SubsLeaves(e: Expr, m: map<Sym, Expr>)
    requires GoodLeaves(e)
    requires forall k :: k in m ==> GoodImage(m[k])
    ensures GoodLeaves(Subs(e, m))
  {
    match e
    case Num(_) =>
    case Var(s) =>
    case Add(ts) =>
      var us := Subs(e, m).terms;
      forall i | 0 <= i < |ts| ensures GoodLeaves(us[i]) { SubsLeaves(ts[i], m); }
    case Mul(fs) =>
      var us := Subs(e, m).factors;
      forall i | 0 <= i < |fs| ensures GoodLeaves(us[i]) { SubsLeaves(fs[i], m); }
    case Pow(b, n) =>
      if !Atomic(b) { SubsLeaves(b, m); }
      else if b.Var? && b.s in m {
        assert Subs(e, m) == Pow(m[b.s], n);
        PowGood(m[b.s], n);
      } else {
        assert !HasFunction(b) && DerivFree(b);
        assert b.Num? || b.Var?;
        assert Subs(b, m) == b;
      }
    case Apply(_, _) =>
    case Deriv(_, _) =>
  }

  lemma PowGood(v: Expr, n: nat)
    requires GoodImage(v)
    ensures GoodLeaves(Pow(v, n))
  {
    if Atomic(v) { assert !HasOps(Pow(v, n)); }
  }

  lemma ShiftTermImage(v: Sym, c: Complex, d: Sym)
    requires d == DX || d == DP
    requires v != DX && v != DP
    ensures GoodImage(Add([Var(v), OpTerm(c, d)]))
  {
    var t := OpTerm(c, d);
    var a := Add([Var(v), t]);
    assert |t.factors| == 2 && t.factors[0] == Num(c) && t.factors[1] == Var(d);
    assert !HasFunction(t.factors[0]) && !HasFunction(t.factors[1]);
    assert FactorOK(t.factors[0]) && FactorOK(t.factors[1]);
    assert AllLeaves(t.factors[0], FactorOK) && AllLeaves(t.factors[1], FactorOK);
    assert AllLeaves(t, FactorOK) && !HasFunction(t) && DerivFree(t);
    assert |a.terms| == 2 && a.terms[0] == Var(v) && a.terms[1] == t;
    assert !HasFunction(a.terms[0]) && AllLeaves(a.terms[0], FactorOK);
    assert AllLeaves(a, FactorOK) && !HasFunction(a) && DerivFree(a);
  }

  lemma ShiftImages(c: Complex)
    ensures forall k :: k in ToTemps() ==> GoodImage(ToTemps()[k])
    ensures forall k :: k in ShiftMap(c) ==> GoodImage(ShiftMap(c)[k])
  {
    ShiftTermImage(X, c, DP);
    ShiftTermImage(P, Neg(c), DX);
  }

  /** The Bopp shift of a function-free, derivative-free operand leaves operators only as factors. */
  lemma {:induction false} ShiftLeaves(q: Expr, left: bool)
    requires IsCommutative(q) && !HasFunction(q) && DerivFree(q)
    ensures AllLeaves(Shift(q, left), FactorOK)
  {
    CommutativeHasNoOps(q);
    NoOpsLeaves(q);
    ShiftImages(Weight(left));
    SubsLeaves(q, ToTemps());
    SubsLeaves(Subs(q, ToTemps()), ShiftMap(Weight(left)));
  }

  lemma MakePrimeNoOps(q: Expr)
    requires IsCommutative(q)
    ensures !HasOps(MakePrime(q))
  {
    CommutativeHasNoOps(q);
    MakePrimeSymbols(q, DX);
    MakePrimeSymbols(q, DP);
  }

  lemma {:induction false} SumOfNoOps(us: seq<Expr>)
    requires forall i :: 0 <= i < |us| ==> !HasOps(us[i])
    ensures !HasOps(SumOf(us))
  {
  }

  /** A term whose factors are operator-free is operator-free. */
  lemma TermNoOps(t: Expr)
    requires forall j :: 0 <= j < |Factors(t)| ==> !HasOps(Factors(t)[j])
    ensures !HasOps(t)
  {
    if t.Mul? {
      forall j | 0 <= j < |t.factors| ensures !Occurs(DX, t.factors[j]) && !Occurs(DP, t.factors[j]) {
        assert t.factors[j] == Factors(t)[j];
      }
    } else {
      assert Factors(t) == [t];
      assert !HasOps(Factors(t)[0]);
    }
  }

  /** Once expanded, every operator factor of every term becomes a derivative. */
  lemma EvalStarNoOps(q: Expr, doit: Expr -> Expr)
    requires AllLeaves(q, FactorOK)
    ensures EvalStar(q, false, doit).Success?
    ensures !HasOps(EvalStar(q, false, doit).value)
  {
    EvalStarSucceeds(q, false, doit);
    SummandsOfExpanded(q, FactorOK);
    var ts := Summands(ExpandExpr(q));
    var us := ReplaceAll(ts, ReplaceDiff).value;
    forall i | 0 <= i < |ts| ensures !HasOps(us[i]) {
      var t := ts[i];
      assert t in ts;
      var fs := Factors(t);
      assert forall j :: 0 <= j < |fs| ==> fs[j] in fs;
      if FirstOp(fs).None? {
        TermNoOps(t);
      } else {
        ReplaceFactorsNoOps(fs);
      }
    }
    SumOfNoOps(us);
  }

  /**
   * With `do=False`, `star` leaves no `DX` or `DP` when the operand to be
   * shifted is derivative-free (the primed one may hold derivatives): every
   * operator introduced by the Bopp shift has been turned into a derivative
   * in `x'` or `p'`.
   */
  lemma StarRemovesOperators(a: Expr, b: Expr, doit: Expr -> Expr)
    requires IsCommutative(a) && IsCommutative(b) && !(HasFunction(a) && HasFunction(b))
    requires DerivFree(if HasFunction(a) then b else a)
    ensures Star(a, b, false, doit).Success?
    ensures !HasOps(Star(a, b, false, doit).value)
  {
    var shifted, primed, left := if HasFunction(a) then b else a, if HasFunction(a) then a else b, HasFunction(a);
    ShiftLeaves(shifted, left);
    ExpandExprLeaves(Shift(shifted, left), FactorOK);
    MakePrimeNoOps(primed);
    NoOpsLeaves(MakePrime(primed));
    var m := if left then Mul([Bopp(b, true).value, MakePrime(a)]) else Mul([Bopp(a, false).value, MakePrime(b)]);
    assert AllLeaves(m, FactorOK);
    ExpandExprLeaves(m, FactorOK);
    EvalStarNoOps(StarProduct(a, b), doit);
  }
}
