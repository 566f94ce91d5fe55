/**
 * `collect_by_diff` of `moyalstar/utils.py`: the early return, the default
 * function `W`, the highest derivative order among the derivatives of the
 * input, the derivative patterns `dx_m_dp_n(m, n)` and their enumeration.
 * SymPy's `collect` itself is a parameter.
 */
module Utils {
  import opened Exprs

  // ---------------------------------------------------------------------
  // max_order: the largest derivative_count among the Derivative atoms

  /** `derivative_count` of every derivative in `e`, in pre-order. */
  function DerivativeCounts(e: Expr): seq<nat>
  {
    match e
    case Num(_) => []
    case Var(_) => []
    case Add(ts) => CountsOf(ts)
    case Mul(fs) => CountsOf(fs)
    case Pow(b, _) => DerivativeCounts(b)
    case Apply(_, xs) => CountsOf(xs)
    case Deriv(b, vs) => [|vs|] + DerivativeCounts(b)
  }

  function CountsOf(es: seq<Expr>): seq<nat>
  {
    if es == [] then [] else DerivativeCounts(es[0]) + CountsOf(es[1..])
  }

  /** There is a derivative count to take the maximum of exactly when a derivative occurs. */
  lemma {:induction false} CountsEmptyIffDerivFree(e: Expr)
    ensures DerivativeCounts(e) == [] <==> DerivFree(e)
  {
    match e
    case Num(_) =>
    case Var(_) =>
    case Add(ts) => CountsOfEmpty(ts);
    case Mul(fs) => CountsOfEmpty(fs);
    case Pow(b, _) => CountsEmptyIffDerivFree(b);
    case Apply(_, xs) => CountsOfEmpty(xs);
    case Deriv(_, _) =>
  }

  lemma {:induction false} CountsOfEmpty(es: seq<Expr>)
    ensures CountsOf(es) == [] <==> forall i :: 0 <= i < |es| ==> DerivFree(es[i])
    decreases es
  {
    if es != [] {
      CountsEmptyIffDerivFree(es[0]);
      CountsOfEmpty(es[1..]);
      assert forall i :: 1 <= i < |es| ==> es[i] == es[1..][i - 1];
    }
  }

  /** Python's `max` over a list: it raises on an empty list. */
  function Max(s: seq<nat>): (r: Result<nat>)
    ensures r.Failure? <==> s == []
    ensures r.Failure? ==> r.error == EmptyMax
    ensures r.Success? ==> r.value in s && forall i :: 0 <= i < |s| ==> s[i] <= r.value
  {
    if s == [] then Failure(EmptyMax)
    else match Max(s[1..])
      case Failure(_) => Success(s[0])
      case Success(m) => Success(if s[0] >= m then s[0] else m)
  }

  /** `max_order`: the highest differentiation order in `q`. */
  function MaxOrder(q: Expr): (r: Result<nat>)
    ensures r.Failure? <==> DerivFree(q)
  {
    CountsEmptyIffDerivFree(q);
    Max(DerivativeCounts(q))
  }

  // ---------------------------------------------------------------------
  // The derivative patterns

  /** `dx_m_dp_n(m, n)`: `W` itself, or `W` differentiated `m` times in `x` and then `n` times in `p`. */
  function DxMDpN(w: Expr, m: nat, n: nat): (r: Expr)
    ensures m == 0 && n == 0 ==> r == w
  {
    if m == 0 && n == 0 then w else Deriv(w, Repeat(X, m) + Repeat(P, n))
  }

  /** How many times `v` is a differentiation variable of the pattern. */
  lemma PatternVariables(w: Expr, m: nat, n: nat)
    requires m != 0 || n != 0
    ensures DxMDpN(w, m, n).Deriv? && DxMDpN(w, m, n).body == w
    ensures multiset(DxMDpN(w, m, n).vars)[X] == m
    ensures multiset(DxMDpN(w, m, n).vars)[P] == n
    ensures |DxMDpN(w, m, n).vars| == m + n
  {
    RepeatCount(X, m, X);
    RepeatCount(X, m, P);
    RepeatCount(P, n, X);
    RepeatCount(P, n, P);
  }

  /** Different `(m, n)` give different patterns. */
  lemma DxMDpNInjective(w: Expr, m1: nat, n1: nat, m2: nat, n2: nat)
    requires DxMDpN(w, m1, n1) == DxMDpN(w, m2, n2)
    ensures m1 == m2 && n1 == n2
  {
    if (m1 != 0 || n1 != 0) && (m2 != 0 || n2 != 0) {
      PatternVariables(w, m1, n1);
      PatternVariables(w, m2, n2);
    }
  }

  /** `[(m, n) for n in range(k - m)]` */
  function Row(m: nat, k: nat): (r: seq<(nat, nat)>)
    requires m <= k
    ensures |r| == k - m && forall j :: 0 <= j < |r| ==> r[j] == (m, j)
  {
    seq(k - m, j requires 0 <= j < k - m => (m, j))
  }

  /** `[(m, n) for m in range(from, k) for n in range(k - m)]` */
  function PatternsFrom(from: nat, k: nat): seq<(nat, nat)>
    decreases k - from
  {
    if from >= k then [] else Row(from, k) + PatternsFrom(from + 1, k)
  }

  /** The `(m, n)` of the collection patterns, in the order of the comprehension. */
  function Patterns(k: nat): seq<(nat, nat)>
  {
    PatternsFrom(0, k)
  }

  lemma {:induction false} PatternsFromMembers(from: nat, k: nat, m: nat, n: nat)
    ensures (m, n) in PatternsFrom(from, k) <==> from <= m && m + n < k
    decreases k - from
  {
    if from < k {
      PatternsFromMembers(from + 1, k, m, n);
      if m == from && m + n < k { assert Row(from, k)[n] == (m, n); }
    }
  }

  /** A pair is a pattern exactly when its total order is below `max_order`. */
  lemma PatternsMembers(k: nat, m: nat, n: nat)
    ensures (m, n) in Patterns(k) <==> m + n < k
  {
    PatternsFromMembers(0, k, m, n);
  }

  /** Lexicographic order on `(m, n)`. */
  predicate Before(a: (nat, nat), b: (nat, nat))
  {
    a.0 < b.0 || (a.0 == b.0 && a.1 < b.1)
  }

  lemma {:induction false} PatternsFromSorted(from: nat, k: nat)
    ensures forall i, j :: 0 <= i < j < |PatternsFrom(from, k)| ==> Before(PatternsFrom(from, k)[i], PatternsFrom(from, k)[j])
    ensures forall i :: 0 <= i < |PatternsFrom(from, k)| ==> PatternsFrom(from, k)[i].0 >= from
    decreases k - from
  {
    if from < k {
      PatternsFromSorted(from + 1, k);
      var r, rest := Row(from, k), PatternsFrom(from + 1, k);
      var all := r + rest;
      assert forall i :: 0 <= i < |all| ==> all[i] == if i < |r| then r[i] else rest[i - |r|];
    }
  }

  /** The patterns come ordered by `m`, then by `n`, without repetition. */
  lemma PatternsSorted(k: nat)
    ensures forall i, j :: 0 <= i < j < |Patterns(k)| ==> Before(Patterns(k)[i], Patterns(k)[j])
  {
    PatternsFromSorted(0, k);
  }

  lemma {:induction false} PatternsFromLength(from: nat, k: nat)
    requires from <= k
    ensures 2 * |PatternsFrom(from, k)| == (k - from) * (k - from + 1)
    decreases k - from
  {
    if from < k { PatternsFromLength(from + 1, k); }
  }

  /** There are `k(k+1)/2` patterns. */
  lemma PatternsLength(k: nat)
    ensures 2 * |Patterns(k)| == k * (k + 1)
  {
    PatternsFromLength(0, k);
  }

  // ---------------------------------------------------------------------
  // collect_by_diff

  /** The Function `W` of `get_symbols`, standing unapplied. */
  function DefaultW(): Expr { Apply("W", []) }

  /** The expressions passed to `sm.collect`. */
  function CollectionPatterns(w: Expr, k: nat): (r: seq<Expr>)
    ensures |r| == |Patterns(k)|
  {
    var ps := Patterns(k);
    seq(|ps|, i requires 0 <= i < |ps| => DxMDpN(w, ps[i].0, ps[i].1))
  }

  /**
   * `collect_by_diff` as written: `x` and `p` are bound only on the branch
   * that fills in the default `W`, so with a caller's `W` the first pattern
   * that differentiates reads an unbound name: `x`, since `[x]*m` is
   * evaluated before `[p]*n` even when `m` is 0.
   */
  function CollectByDiffAsWritten(q: Expr, w: Option<Expr>, collect: (Expr, seq<Expr>) -> Expr): Result<Expr>
  {
    if !HasFunction(q) then Success(q)
    else
      match MaxOrder(q)
      case Failure(e) => Failure(e)
      case Success(k) =>
        if w.Some? && k >= 2 then Failure(UnboundName)
        else Success(collect(q, CollectionPatterns(if w.Some? then w.value else DefaultW(), k)))
  }

  /**
   * `collect_by_diff(q, W)` as intended: `q` unchanged when it holds no
   * Function; otherwise an error when it holds no derivative, and else
   * `q` collected by the derivatives of `W` of total order below the
   * highest order in `q`.
   */
  function CollectByDiff(q: Expr, w: Option<Expr>, collect: (Expr, seq<Expr>) -> Expr): (r: Result<Expr>)
    ensures !HasFunction(q) ==> r == Success(q)
    ensures r.Failure? <==> HasFunction(q) && DerivFree(q)
    ensures r.Failure? ==> r.error == EmptyMax
  {
    if !HasFunction(q) then Success(q)
    else
      match MaxOrder(q)
      case Failure(e) => Failure(e)
      case Success(k) => Success(collect(q, CollectionPatterns(if w.Some? then w.value else DefaultW(), k)))
  }

  /**
   * What `collect` is handed: every pattern is `W` or a derivative of `W`
   * of total order below `max_order`, one per `(m, n)` with `m + n <
   * max_order`, and none of them has the highest order that occurs in `q`.
   */
  lemma CollectionPatternsOrders(w: Expr, k: nat, i: nat)
    requires i < |CollectionPatterns(w, k)|
    ensures var c := CollectionPatterns(w, k)[i];
      c == w || (c.Deriv? && c.body == w && 0 < |c.vars| < k)
  {
    var ps := Patterns(k);
    assert ps[i] in ps;
    PatternsMembers(k, ps[i].0, ps[i].1);
    if ps[i].0 != 0 || ps[i].1 != 0 { PatternVariables(w, ps[i].0, ps[i].1); }
  }

  /** Each `(m, n)` with `m + n < max_order` has its own pattern. */
  lemma CollectionPatternsDistinct(w: Expr, k: nat, i: nat, j: nat)
    requires i < j < |CollectionPatterns(w, k)|
    ensures CollectionPatterns(w, k)[i] != CollectionPatterns(w, k)[j]
  {
    var ps := Patterns(k);
    PatternsSorted(k);
    assert Before(ps[i], ps[j]);
    if CollectionPatterns(w, k)[i] == CollectionPatterns(w, k)[j] {
      DxMDpNInjective(w, ps[i].0, ps[i].1, ps[j].0, ps[j].1);
    }
  }

  /** Without a caller's `W`, the code as written and as intended agree. */
  lemma DefaultWAgrees(q: Expr, collect: (Expr, seq<Expr>) -> Expr)
    ensures CollectByDiffAsWritten(q, None, collect) == CollectByDiff(q, None, collect)
  {
  }

  /**
   * `collect_by_diff(Derivative(f(x), x, x), f(x))`: building the pattern
   * `(0, 1)` evaluates `[x]*0`, and `x` was never bound.
   */
  lemma CallerWUnbound(collect: (Expr, seq<Expr>) -> Expr)
    ensures var f := Apply("f", [Var(X)]);
      && CollectByDiffAsWritten(Deriv(f, [X, X]), Some(f), collect) == Failure(UnboundName)
      && CollectByDiff(Deriv(f, [X, X]), Some(f), collect).Success?
  {
    var f := Apply("f", [Var(X)]);
    var q := Deriv(f, [X, X]);
    assert HasFunction(f.args[0]) == false;
    assert HasFunction(q);
    assert DerivativeCounts(Var(X)) == [];
    assert [Var(X)][1..] == [];
    assert DerivativeCounts(f) == [];
    assert DerivativeCounts(q) == [2];
    assert MaxOrder(q) == Success(2);
  }
}
