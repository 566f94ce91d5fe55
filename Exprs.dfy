/**
 * The expression tree the star-product pipeline works on, standing for the
 * small part of SymPy's expression language that moyalstar builds and
 * inspects: exact complex-rational constants, the symbols of the package,
 * sums, ordered products, natural powers, applied functions (W(x, p)) and
 * unevaluated derivatives.  Products keep their factor order, because the
 * primed symbols and the derivative operators do not commute.
 */
module Exprs {

  /** A positive denominator. */
  type Pos = n: int | n > 0 witness 1

  /** The exact constant (re + im*i) / den; no floating point anywhere. */
  datatype Complex = Complex(re: int, im: int, den: Pos)

  /** The imaginary unit `I`. */
  const ImagUnit: Complex := Complex(0, 1, 1)

  /** The Bopp-shift weight `I/2`. */
  const HalfI: Complex := Complex(0, 1, 2)

  function Neg(c: Complex): (r: Complex)
    ensures r.den == c.den && r.re == -c.re && r.im == -c.im
  {
    Complex(-c.re, -c.im, c.den)
  }

  function Int(n: int): Complex { Complex(n, 0, 1) }

  /**
   * The constants SymPy holds as atoms: the rationals and `I` itself.  Any
   * other constant is `b*I` (a product) or `a + b*I` (a sum).
   */
  predicate NumAtom(c: Complex)
  {
    c.im == 0 || (c.re == 0 && c.im == c.den)
  }

  /** The factors SymPy holds for `b*I` (numerator `b` over `d`): `I` alone when `b` is 1, else `b` and `I`. */
  function ImagFactors(b: int, d: Pos): (r: seq<Expr>)
    ensures |r| >= 1 && r[|r| - 1] == Num(ImagUnit)
  {
    if b == d then [Num(ImagUnit)] else [Num(Complex(b, 0, d)), Num(ImagUnit)]
  }

  /**
   * The symbols of the package: position and momentum `x`, `p`; their
   * primed, non-commutative copies `x'`, `p'`; the derivative-operator
   * placeholders `\partial_{x'}`, `\partial_{p'}` (written DX, DP); the
   * real temporaries `x_0`, `p_0`; and any other symbol of the user's.
   */
  datatype Sym =
    | X | P
    | XPrime | PPrime
    | DX | DP
    | X0 | P0
    | Named(name: string, commutative: bool)

  predicate SymCommutative(s: Sym)
  {
    match s
    case XPrime | PPrime | DX | DP => false
    case Named(_, c) => c
    case _ => true
  }

  datatype Expr =
    | Num(c: Complex)
    | Var(s: Sym)
    | Add(terms: seq<Expr>)
    | Mul(factors: seq<Expr>)
    | Pow(base: Expr, exp: nat)
    | Apply(f: string, args: seq<Expr>)
    | Deriv(body: Expr, vars: seq<Sym>)

  /** The errors the source raises (ValueError and NameError there, told apart here). */
  datatype Error =
    | NotCommutative        // input holds primed or operator symbols
    | AlreadyShifted        // an operator symbol is already present
    | BothHaveFunction      // both star operands contain a Function
    | SumNotAllowed         // _replace_diff was given a sum
    | EmptyMax              // max() of an empty list
    | UnpackMismatch        // a tuple unpacked into the wrong number of names
    | UnboundName           // a closure read a local that was never assigned
    | IntHasNoDoit          // `.doit()` called on the Python int 0
    | TupleNotAddable       // a derivative's (variable, count) pair added to an expression

  datatype Result<T> = Success(value: T) | Failure(error: Error)

  datatype Option<T> = None | Some(value: T)

  /** `[v for _ in range(k)]`. */
  function Repeat(v: Sym, k: nat): (r: seq<Sym>)
    ensures |r| == k && forall i :: 0 <= i < k ==> r[i] == v
  {
    if k == 0 then [] else [v] + Repeat(v, k - 1)
  }

  /** `v` occurs `k` times in `Repeat(v, k)` and no other symbol does. */
  lemma {:induction false} RepeatCount(w: Sym, k: nat, v: Sym)
    ensures multiset(Repeat(w, k))[v] == if w == v then k else 0
  {
    if k > 0 { RepeatCount(w, k - 1, v); }
  }

  // ---------------------------------------------------------------------
  // Queries on expressions

  /** `s` occurs in `e`, as a leaf or as a differentiation variable. */
  predicate Occurs(s: Sym, e: Expr)
  {
    match e
    case Num(_) => false
    case Var(t) => s == t
    case Add(ts) => exists i :: 0 <= i < |ts| && Occurs(s, ts[i])
    case Mul(fs) => exists i :: 0 <= i < |fs| && Occurs(s, fs[i])
    case Pow(b, _) => Occurs(s, b)
    case Apply(_, xs) => exists i :: 0 <= i < |xs| && Occurs(s, xs[i])
    case Deriv(b, vs) => Occurs(s, b) || s in vs
  }

  /** An operator placeholder `DX` or `DP` occurs in `e`. */
  predicate HasOps(e: Expr)
  {
    Occurs(DX, e) || Occurs(DP, e)
  }

  /** SymPy's `is_commutative`: every symbol in `e` is commutative. */
  predicate IsCommutative(e: Expr)
  {
    match e
    case Num(_) => true
    case Var(s) => SymCommutative(s)
    case Add(ts) => forall i :: 0 <= i < |ts| ==> IsCommutative(ts[i])
    case Mul(fs) => forall i :: 0 <= i < |fs| ==> IsCommutative(fs[i])
    case Pow(b, _) => IsCommutative(b)
    case Apply(_, xs) => forall i :: 0 <= i < |xs| ==> IsCommutative(xs[i])
    case Deriv(b, vs) => IsCommutative(b) && forall i :: 0 <= i < |vs| ==> SymCommutative(vs[i])
  }

  /** `bool(e.atoms(sm.Function))`: an applied function occurs in `e`. */
  predicate HasFunction(e: Expr)
  {
    match e
    case Num(_) => false
    case Var(_) => false
    case Add(ts) => exists i :: 0 <= i < |ts| && HasFunction(ts[i])
    case Mul(fs) => exists i :: 0 <= i < |fs| && HasFunction(fs[i])
    case Pow(b, _) => HasFunction(b)
    case Apply(_, _) => true
    case Deriv(b, _) => HasFunction(b)
  }

  /** No unevaluated derivative occurs in `e`. */
  predicate DerivFree(e: Expr)
  {
    match e
    case Num(_) => true
    case Var(_) => true
    case Add(ts) => forall i :: 0 <= i < |ts| ==> DerivFree(ts[i])
    case Mul(fs) => forall i :: 0 <= i < |fs| ==> DerivFree(fs[i])
    case Pow(b, _) => DerivFree(b)
    case Apply(_, xs) => forall i :: 0 <= i < |xs| ==> DerivFree(xs[i])
    case Deriv(_, _) => false
  }

  lemma {:induction false} CommutativeHasNoOps(e: Expr)
    requires IsCommutative(e)
    ensures !HasOps(e) && !Occurs(XPrime, e) && !Occurs(PPrime, e)
  {
    match e
    case Num(_) =>
    case Var(_) =>
    case Add(ts) => forall i | 0 <= i < |ts| { CommutativeHasNoOps(ts[i]); }
    case Mul(fs) => forall i | 0 <= i < |fs| { CommutativeHasNoOps(fs[i]); }
    case Pow(b, _) => CommutativeHasNoOps(b);
    case Apply(_, xs) => forall i | 0 <= i < |xs| { CommutativeHasNoOps(xs[i]); }
    case Deriv(b, vs) => CommutativeHasNoOps(b);
  }

  // ---------------------------------------------------------------------
  // SymPy's Mul(*fs), Add(*ts) and args

  /** `sm.Mul(*fs)`: the empty product is 1 and a single factor stands alone. */
  function MulOf(fs: seq<Expr>): (r: Expr)
    ensures |fs| == 0 ==> r == Num(Int(1))
    ensures |fs| == 1 ==> r == fs[0]
    ensures |fs| >= 2 ==> r == Mul(fs)
  {
    if |fs| == 0 then Num(Int(1)) else if |fs| == 1 then fs[0] else Mul(fs)
  }

  /** A sum built by `out = 0; out += t` over `ts`: 0, the single term, or an Add. */
  function SumOf(ts: seq<Expr>): (r: Expr)
    ensures |ts| == 0 ==> r == Num(Int(0))
    ensures |ts| == 1 ==> r == ts[0]
    ensures |ts| >= 2 ==> r == Add(ts)
  {
    if |ts| == 0 then Num(Int(0)) else if |ts| == 1 then ts[0] else Add(ts)
  }

  /** The terms of a sum, reading anything else as a sum of one term. */
  function Summands(q: Expr): seq<Expr>
  {
    if q.Add? then q.terms else [q]
  }

  /** The factors of a product, reading anything else as a product of one factor. */
  function Factors(q: Expr): seq<Expr>
  {
    if q.Mul? then q.factors else [q]
  }

  /**
   * SymPy's `e.args`, as far as they are expressions: `b*I` has `b` and
   * `I`, and `a + b*I` has `a` and the product `b*I`; a derivative has its
   * body, and the `(variable, count)` pairs that follow it in SymPy are not
   * expressions and are left out here.
   */
  function Args(e: Expr): seq<Expr>
  {
    match e
    case Num(c) =>
      if NumAtom(c) then []
      else if c.re == 0 then ImagFactors(c.im, c.den)
      else [Num(Complex(c.re, 0, c.den)), MulOf(ImagFactors(c.im, c.den))]
    case Var(_) => []
    case Add(ts) => ts
    case Mul(fs) => fs
    case Pow(b, n) => [b, Num(Int(n))]
    case Apply(_, xs) => xs
    case Deriv(b, _) => [b]
  }

  /** The number of nodes of `e`, the measure that makes `_replace_diff` terminate. */
  function Size(e: Expr): (n: nat)
    ensures n >= 1
  {
    match e
    case Num(c) => if NumAtom(c) then 1 else if c.re == 0 then 3 else 6
    case Var(_) => 1
    case Add(ts) => 1 + SizeAll(ts)
    case Mul(fs) => 1 + SizeAll(fs)
    case Pow(b, _) => 2 + Size(b)
    case Apply(_, xs) => 1 + SizeAll(xs)
    case Deriv(b, vs) => 1 + Size(b) + |vs|
  }

  function SizeAll(es: seq<Expr>): nat
  {
    if es == [] then 0 else Size(es[0]) + SizeAll(es[1..])
  }

  lemma {:induction false} SizeAllAppend(a: seq<Expr>, b: seq<Expr>)
    ensures SizeAll(a + b) == SizeAll(a) + SizeAll(b)
  {
    if a == [] {
      assert a + b == b;
    } else {
      assert (a + b)[1..] == a[1..] + b;
      SizeAllAppend(a[1..], b);
    }
  }

  /** The arguments of an expression are smaller than the expression. */
  lemma ArgsSmaller(e: Expr)
    ensures SizeAll(Args(e)) < Size(e)
  {
    match e
    case Pow(b, n) =>
      assert [b, Num(Int(n))][1..] == [Num(Int(n))];
      assert [Num(Int(n))][1..] == [];
      assert SizeAll([Num(Int(n))]) == 1;
    case Num(c) =>
      if !NumAtom(c) {
        var fs := ImagFactors(c.im, c.den);
        TwoSizes(fs);
        if c.re != 0 {
          MulOfSize(fs);
          TwoSizes(Args(e));
        }
      }
    case Deriv(b, _) =>
      assert [b][1..] == [];
    case _ =>
  }

  lemma TwoSizes(a: seq<Expr>)
    requires |a| <= 2
    ensures SizeAll(a) == (if |a| == 0 then 0 else if |a| == 1 then Size(a[0]) else Size(a[0]) + Size(a[1]))
  {
    if |a| == 1 {
      assert a[1..] == [];
    } else if |a| == 2 {
      assert a[1..][0] == a[1] && a[1..][1..] == [];
    }
  }

  lemma MulOfSize(rest: seq<Expr>)
    ensures Size(MulOf(rest)) <= SizeAll(rest) + 1
  {
    if |rest| == 1 {
      assert rest[1..] == [];
    }
  }

  lemma {:induction false} SizeAllSplit(fs: seq<Expr>, k: nat)
    requires k < |fs|
    ensures SizeAll(fs) == SizeAll(fs[..k]) + Size(fs[k]) + SizeAll(fs[k + 1..])
    decreases k
  {
    if k > 0 {
      var tl := fs[1..];
      SizeAllSplit(tl, k - 1);
      assert fs[..k][1..] == tl[..k - 1];
      assert tl[k - 1] == fs[k] && tl[k..] == fs[k + 1..];
    }
  }

  /** The product of what follows a cut point is smaller than the whole list. */
  lemma SuffixSmaller(fs: seq<Expr>, k: nat)
    requires k < |fs|
    ensures Size(MulOf(fs[k + 1..])) <= SizeAll(fs)
  {
    SizeAllSplit(fs, k);
    MulOfSize(fs[k + 1..]);
  }

  // ---------------------------------------------------------------------
  // Substitution, `e.subs(m)`

  /** Every image of `m` is a symbol. */
  predicate SymbolMap(m: map<Sym, Expr>)
  {
    forall k :: k in m ==> m[k].Var?
  }

  /** A differentiation variable is renamed when its image is a symbol. */
  function Rename(v: Sym, m: map<Sym, Expr>): Sym
  {
    if v in m && m[v].Var? then m[v].s else v
  }

  /**
   * Simultaneous substitution of the symbols in `m`'s domain.  Derivative
   * variables follow renamings only (SymPy builds a `Subs` object when a
   * differentiation variable is replaced by a compound expression; that
   * object is not part of this tree).
   */
  function Subs(e: Expr, m: map<Sym, Expr>): Expr
  {
    match e
    case Num(_) => e
    case Var(s) => if s in m then m[s] else e
    case Add(ts) => Add(seq(|ts|, i requires 0 <= i < |ts| => Subs(ts[i], m)))
    case Mul(fs) => Mul(seq(|fs|, i requires 0 <= i < |fs| => Subs(fs[i], m)))
    case Pow(b, n) => Pow(Subs(b, m), n)
    case Apply(f, xs) => Apply(f, seq(|xs|, i requires 0 <= i < |xs| => Subs(xs[i], m)))
    case Deriv(b, vs) => Deriv(Subs(b, m), seq(|vs|, i requires 0 <= i < |vs| => Rename(vs[i], m)))
  }

  /** Substituting `m1` and then `m2` in one step. */
  function Compose(m1: map<Sym, Expr>, m2: map<Sym, Expr>): map<Sym, Expr>
  {
    map k | k in m1 :: Subs(m1[k], m2)
  }

  /** Subs never turns a compound node into a leaf. */
  lemma SubsKeepsShape(e: Expr, m: map<Sym, Expr>)
    requires !e.Var?
    ensures !Subs(e, m).Var?
  {
  }

  /**
   * Two substitutions in a row are one substitution by the composed map,
   * provided the second map's own keys do not already occur in `e` (they
   * are fresh temporaries) and the derivative variables are renamed
   * consistently.
   */
  lemma {:induction false} SubsCompose(e: Expr, m1: map<Sym, Expr>, m2: map<Sym, Expr>)
    requires forall k :: k in m2 && k !in m1 ==> !Occurs(k, e)
    requires DerivFree(e) || (SymbolMap(m1) && SymbolMap(m2))
    ensures Subs(Subs(e, m1), m2) == Subs(e, Compose(m1, m2))
  {
    var c := Compose(m1, m2);
    match e
    case Num(_) =>
    case Var(s) =>
    case Add(ts) =>
      forall i | 0 <= i < |ts| ensures Subs(Subs(ts[i], m1), m2) == Subs(ts[i], c) {
        SubsCompose(ts[i], m1, m2);
      }
    case Mul(fs) =>
      forall i | 0 <= i < |fs| ensures Subs(Subs(fs[i], m1), m2) == Subs(fs[i], c) {
        SubsCompose(fs[i], m1, m2);
      }
    case Pow(b, _) => SubsCompose(b, m1, m2);
    case Apply(_, xs) =>
      forall i | 0 <= i < |xs| ensures Subs(Subs(xs[i], m1), m2) == Subs(xs[i], c) {
        SubsCompose(xs[i], m1, m2);
      }
    case Deriv(b, vs) =>
      SubsCompose(b, m1, m2);
      forall i | 0 <= i < |vs| ensures Rename(Rename(vs[i], m1), m2) == Rename(vs[i], c) {
        var v := vs[i];
        assert Occurs(v, e);
        if v in m1 {
          var t := m1[v].s;
          assert Subs(Var(t), m2) == c[v];
        }
      }
  }

  /** A substitution that maps every symbol it meets to itself changes nothing. */
  lemma {:induction false} SubsIdentity(e: Expr, m: map<Sym, Expr>)
    requires forall k :: k in m && Occurs(k, e) ==> m[k] == Var(k)
    ensures Subs(e, m) == e
  {
    match e
    case Num(_) =>
    case Var(s) =>
    case Add(ts) =>
      forall i | 0 <= i < |ts| ensures Subs(ts[i], m) == ts[i] { SubsIdentity(ts[i], m); }
    case Mul(fs) =>
      forall i | 0 <= i < |fs| ensures Subs(fs[i], m) == fs[i] { SubsIdentity(fs[i], m); }
    case Pow(b, _) => SubsIdentity(b, m);
    case Apply(_, xs) =>
      forall i | 0 <= i < |xs| ensures Subs(xs[i], m) == xs[i] { SubsIdentity(xs[i], m); }
    case Deriv(b, vs) =>
      SubsIdentity(b, m);
      forall i | 0 <= i < |vs| ensures Rename(vs[i], m) == vs[i] { assert Occurs(vs[i], e); }
  }

  /** A symbol outside the domain of the substitution survives it. */
  lemma {:induction false} OccursPreserved(e: Expr, m: map<Sym, Expr>, s: Sym)
    requires s !in m
    ensures Occurs(s, e) ==> Occurs(s, Subs(e, m))
  {
    match e
    case Num(_) =>
    case Var(t) =>
    case Add(ts) =>
      if Occurs(s, e) {
        var i :| 0 <= i < |ts| && Occurs(s, ts[i]);
        OccursPreserved(ts[i], m, s);
        assert Subs(e, m).terms[i] == Subs(ts[i], m);
      }
    case Mul(fs) =>
      if Occurs(s, e) {
        var i :| 0 <= i < |fs| && Occurs(s, fs[i]);
        OccursPreserved(fs[i], m, s);
        assert Subs(e, m).factors[i] == Subs(fs[i], m);
      }
    case Pow(b, _) => OccursPreserved(b, m, s);
    case Apply(_, xs) =>
      if Occurs(s, e) {
        var i :| 0 <= i < |xs| && Occurs(s, xs[i]);
        OccursPreserved(xs[i], m, s);
        assert Subs(e, m).args[i] == Subs(xs[i], m);
      }
    case Deriv(b, vs) =>
      OccursPreserved(b, m, s);
      if s in vs {
        var i :| 0 <= i < |vs| && vs[i] == s;
        assert Subs(e, m).vars[i] == s;
      }
  }

  /** `s` was left alone by `m` in `e`, or an image of `m` brought it in. */
  predicate Brought(s: Sym, e: Expr, m: map<Sym, Expr>)
  {
    (s !in m && Occurs(s, e)) || exists k :: k in m && Occurs(k, e) && Occurs(s, m[k])
  }

  lemma BroughtLift(s: Sym, c: Expr, e: Expr, m: map<Sym, Expr>)
    requires Brought(s, c, m)
    requires forall k :: Occurs(k, c) ==> Occurs(k, e)
    ensures Brought(s, e, m)
  {
    if !(s !in m && Occurs(s, c)) {
      var k :| k in m && Occurs(k, c) && Occurs(s, m[k]);
      assert Occurs(k, e);
    }
  }

  /**
   * After a substitution a symbol occurs only where it was left alone or
   * where an image brought it in.  (With a compound image for a
   * differentiation variable the variable itself stays, hence the
   * hypothesis.)
   */
  lemma {:induction false} OccursAfterSubs(e: Expr, m: map<Sym, Expr>, s: Sym)
    requires SymbolMap(m) || DerivFree(e)
    requires Occurs(s, Subs(e, m))
    ensures Brought(s, e, m)
  {
    match e
    case Num(_) =>
    case Var(t) =>
      if t in m { assert Occurs(t, e); }
    case Add(ts) =>
      var r := Subs(e, m).terms;
      var i :| 0 <= i < |r| && Occurs(s, r[i]);
      OccursAfterSubs(ts[i], m, s);
      BroughtLift(s, ts[i], e, m);
    case Mul(fs) =>
      var r := Subs(e, m).factors;
      var i :| 0 <= i < |r| && Occurs(s, r[i]);
      OccursAfterSubs(fs[i], m, s);
      BroughtLift(s, fs[i], e, m);
    case Pow(b, _) =>
      OccursAfterSubs(b, m, s);
      BroughtLift(s, b, e, m);
    case Apply(_, xs) =>
      var r := Subs(e, m).args;
      var i :| 0 <= i < |r| && Occurs(s, r[i]);
      OccursAfterSubs(xs[i], m, s);
      BroughtLift(s, xs[i], e, m);
    case Deriv(b, vs) =>
      if Occurs(s, Subs(b, m)) {
        OccursAfterSubs(b, m, s);
        BroughtLift(s, b, e, m);
      } else {
        var r := Subs(e, m).vars;
        var i :| 0 <= i < |r| && r[i] == s;
        var v := vs[i];
        assert Occurs(v, e);
        if v in m {
          assert m[v] == Var(s);
          assert Occurs(s, m[v]);
        }
      }
  }
}
