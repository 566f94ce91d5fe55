# moyalstar: the Bopp-shift star product, modelled in Dafny

moyalstar computes the Moyal star product `A ⋆ B` of two phase-space
functions with SymPy. It does this with the Bopp shift:

1. The operand without an applied function is shifted:
   `x ↦ x ± (i/2)∂p'` and `p ↦ p ∓ (i/2)∂x'`.
2. The other operand is primed: `x ↦ x'` and `p ↦ p'`.
3. The product is expanded.
4. In every term, the first operator factor `∂x'^k` or `∂p'^k` is cut out. The rest of the term after it is wrapped in a `Derivative` in `x'` or `p'` of order `k`. This repeats on that rest.
5. Optionally, the derivatives are evaluated and the primes are removed.

The model covers:

- `moyalstar/core.py`: `make_prime`, `bopp`, `_first_index_and_diff_order`, `_replace_diff`, `_eval_star` and `star`.
- `moyalstar/utils.py`: `make_prime`, and the `max_order`, `dx_m_dp_n` and pattern enumeration of `collect_by_diff`.
- `moyalstar.py`: the older standalone version of the pipeline.

Layout:

- `Exprs.dfy` is the expression tree. It holds:
  - exact complex-rational constants;
  - the symbols `x`, `p`, `x'`, `p'`, `∂x'`, `∂p'`, `x_0`, `p_0`;
  - ordered sums and products, natural powers, applied functions and derivatives;
  - SymPy's `is_commutative`, `atoms(Function)`, and `.args` as far as they are expressions (a non-real constant is a product or sum of its parts; a derivative's `(variable, count)` pairs are not expressions and appear only as the error of adding one);
  - simultaneous substitution (`subs`) and its composition.
- `Normalise.dfy` stands in for `sm.expand`. It is a deterministic normaliser into ordered monomials. It reads a non-real constant as SymPy holds it: `b·I` as the factors `b` and `I`, and `a + b·I` as two terms. It keeps the leaves of the tree and is idempotent.
- `Core.dfy` models the package's `core.py`.
- `Symbols.dfy` models the tuples returned by `get_symbols` and how they are unpacked.
- `Utils.dfy` models `collect_by_diff`.
- `Standalone.dfy` models what `moyalstar.py` does differently.

Modelling choices:

- SymPy's `.doit()` and `sm.collect` are function parameters.
- Errors are values: `Result` with an `Error` kind for each `raise`.
- The `_eval_star` loop is a Dafny `method` proved equal to the function that the rest of the model uses.

## Model

| member | source | states |
|---|---|---|
| Core.MakePrimeSymbols | moyalstar/core.py:84-90 | after `make_prime`, no `x`, `p`, `x_0`, `p_0` remains; `x'` occurs iff `x`, `x_0` or `x'` did; `p'` likewise; every other symbol occurs iff it did before (the same code stands at moyalstar/utils.py:83-89 and moyalstar.py:14-18) |
| Core.MakePrimeIsRenaming | moyalstar/core.py:84-90 | on an input without `x_0`/`p_0`, the two-stage substitution is the simultaneous renaming `x ↦ x'`, `p ↦ p'` |
| Core.UnprimeMakePrime | moyalstar/core.py:84-90 | the substitution `x' ↦ x`, `p' ↦ p` undoes `make_prime` on an unprimed input without temporaries |
| Core.MakePrimeCapturesTemporary | moyalstar/core.py:86-88 | an `x_0` already in the input is primed too, because the temporaries are not fresh |
| Exprs.CommutativeHasNoOps | moyalstar/core.py:55-56 | an expression SymPy calls commutative holds no primed symbol and no operator symbol |
| Core.Bopp | moyalstar/core.py:127-137 | fails iff the input is not commutative, and then with that error; otherwise it succeeds |
| Core.ShiftIsSimultaneous | moyalstar/core.py:131-136 | the substitution through `x_0`, `p_0` equals the simultaneous substitution `x ↦ x + c·∂p'`, `p ↦ p − c·∂x'`: the replacement terms are never substituted again |
| Core.BoppWithoutCoordinates | moyalstar/core.py:131-137 | an input without `x` and `p` comes back only expanded |
| Core.ShiftSymbols | moyalstar/core.py:131-136 | after the shift no temporary remains; `∂p'` occurs iff `x` did and `∂x'` occurs iff `p` did |
| Core.ShiftSigns | moyalstar/core.py:96-98 | the left shift is the right shift with the sign of every operator term flipped |
| Core.FirstOp | moyalstar/core.py:147-158 | `None` iff no factor is `∂x'`, `∂p'` or a power of one; otherwise the index of the first such factor, paired with `x'` or `p'` and the exponent (1 for the bare symbol) |
| Core.FirstIndexAndDiffOrder | moyalstar/core.py:147-158 | the scan over `q.args` with early return finds the first operator factor, its variable and its order, and agrees with `FirstOp` (the same loop stands at moyalstar.py:47-58) |
| Core.ReplaceDiff | moyalstar/core.py:161-176 | fails iff given a sum; a term with no operator factor comes back unchanged; otherwise every non-operator factor of the term survives, in order, under exactly the derivatives of the operator factors to its left, and for every variable the number of differentiations is the term's own plus the orders of its operator factors, so the whole suffix sits under one derivative rather than each factor under its own (the same recursion stands at moyalstar.py:60-76) |
| Core.ReplaceFactorsScope | moyalstar/core.py:168-174 | read back factor by factor, the rewritten product places each non-operator factor under the derivatives `x'`^k or `p'`^k of all the operator factors before it, outermost first, and drops nothing but unit factors |
| Core.ReplaceFactorsExample | moyalstar/core.py:168-174 | `x·∂p'·p'` becomes `x·Derivative(p', p')`: the prefix stays outside the derivative |
| Core.ReplaceFactorsNoOps | moyalstar/core.py:168-174 | when every operator in the factors is an operator factor, the rewritten term holds no `∂x'` or `∂p'` |
| Core.ReplaceFactorsCounts | moyalstar/core.py:168-174 | each operator factor `∂x'^k` becomes exactly `k` differentiations in `x'` (`∂p'^k` in `p'`) and no others are added: derivative counts are conserved |
| Core.BareOperatorSummand | moyalstar/core.py:147-176 | as written, a bare `∂p'` term is returned unrewritten; as intended it becomes `Derivative(1, p')` (which SymPy's `Derivative` constructor turns into 0); both agree on `(i/2)·∂p'` |
| Normalise.SummandsOfExpanded | moyalstar/core.py:141-142 | every term of an expansion is a product of atoms or powers of atoms, never a sum, and its factors are leaves of the input |
| Normalise.ExpandIdempotent | moyalstar/core.py:181 | expanding the already expanded product again changes nothing |
| Core.ReplaceAll | moyalstar/core.py:183-185 | the walk succeeds iff every term rewrites, and then holds each term's rewrite in order |
| Core.SumReplacedLoop | moyalstar/core.py:182-185 | the accumulation loop returns the sum of the rewritten terms, or the first failure; it succeeds iff every term rewrites (the same loop stands at moyalstar.py:83-85) |
| Core.Finish | moyalstar/core.py:187-188 | after `doit` and the substitution `x' ↦ x`, `p' ↦ p`, no primed symbol remains |
| Core.EvalStarSucceeds | moyalstar/core.py:181-185 | the intended `_eval_star` never raises, because no term of an expansion is a sum |
| Core.EvalStarOfConstant | moyalstar/core.py:181-188 | as written, a constant's args are added up: a rational or `I` has none, so it gives 0 with `do=False` and fails on `0.doit()` with `do=True`; any other constant gives the sum of its args: `a + b·I` for `a + b·I`, and `b + I` for `b·I`; as intended it comes back as SymPy holds it |
| Core.EvalStarOfImaginaryConstant | moyalstar/core.py:183-185 | as written, `I/2` is `Mul(1/2, I)` and its args add up to `1/2 + I` |
| Core.EvalStarOfDerivative | moyalstar/core.py:183-185 | as written, a derivative term fails: its body is added, then its `(x', 1)` pair, which cannot be added; as intended it comes back unchanged |
| Core.EvalStarOfFunction | moyalstar/core.py:183-185 | as written, `W(x', p')` is summed over its arguments into `x' + p'`; as intended it comes back unchanged |
| Core.EvalStarOfSumArgument | moyalstar/core.py:183-185 | as written, `W(x'+p', p')` hands its argument `x'+p'` to `_replace_diff`, which raises; as intended it comes back unchanged |
| Core.EvalStarNoOps | moyalstar/core.py:181-185 | with `do=False`, once every operator in the input is an operator factor, no `∂x'` or `∂p'` remains |
| Core.Star | moyalstar/core.py:219-239 | succeeds iff both operands are commutative and at most one holds a function; it raises the commutativity error first; with `do`, no primed symbol remains |
| Core.StarRemovesOperators | moyalstar/core.py:230-239 | with `do=False`, on operands that pass both guards and whose Bopp-shifted operand holds no derivative (the primed one may), `star` succeeds and the result holds no `∂x'` or `∂p'`: every operator from the Bopp shift became a derivative |
| Core.StarOfScalarAsWritten | moyalstar/core.py:230-239 | `star(sm.Integer(2), x, do=False)` as written gives `2 + x'`; as intended `2·x'` |
| Core.StarOfImaginaryScalarAsWritten | moyalstar/core.py:230-239 | `star(sm.I/2, x, do=False)`: the expanded product is `Mul(1/2, I, x')`, so as written it gives `1/2 + I + x'`; as intended `(1/2)·I·x'` |
| Core.StarOfComplexScalarAsWritten | moyalstar/core.py:230-239 | `star(1 + sm.I, x, do=False)`: expansion distributes `1 + I` into a sum of two terms, so the code as written gives the same as intended |
| Symbols.UnpackSeven | moyalstar/core.py:85 | a seven-name unpacking succeeds iff the tuple has seven values, and binds them in order |
| Symbols.UnpackEight | moyalstar/utils.py:84 | an eight-name unpacking succeeds iff the tuple has eight values; the second is `W` |
| Symbols.PackageIsStandalonePlusW | moyalstar/core.py:52-57 | the package's tuple is the standalone tuple with `W` inserted second |
| Utils.Max | moyalstar/utils.py:118-119 | `max` raises on an empty list; otherwise its result is in the list and bounds every element |
| Utils.MaxOrder | moyalstar/utils.py:118-119 | `max_order` fails exactly when no derivative occurs |
| Utils.CountsEmptyIffDerivFree | moyalstar/utils.py:118-119 | the list of derivative counts is empty iff the expression holds no derivative |
| Utils.DxMDpN | moyalstar/utils.py:121-123 | `dx_m_dp_n(0, 0)` is `W` itself |
| Utils.PatternVariables | moyalstar/utils.py:124 | otherwise it is a derivative of `W` with `m` copies of `x` and `n` copies of `p`, `m + n` in all |
| Utils.DxMDpNInjective | moyalstar/utils.py:121-124 | different `(m, n)` give different patterns |
| Utils.PatternsMembers | moyalstar/utils.py:126-127 | `(m, n)` is enumerated iff `m + n < max_order` |
| Utils.PatternsSorted | moyalstar/utils.py:126-127 | the pairs come in strictly increasing lexicographic order, so none repeats |
| Utils.PatternsLength | moyalstar/utils.py:126-127 | there are `max_order·(max_order+1)/2` pairs |
| Utils.CollectionPatternsOrders | moyalstar/utils.py:121-127 | each pattern is `W` or a derivative of `W` of total order strictly below `max_order`, so the highest order in `q` is never a pattern |
| Utils.CollectionPatternsDistinct | moyalstar/utils.py:121-127 | the patterns handed to `collect` are pairwise distinct |
| Utils.CollectByDiff | moyalstar/utils.py:112-127 | an input without a function comes back unchanged; the call fails iff the input holds a function but no derivative, and then with the empty-`max` error |
| Utils.DefaultWAgrees | moyalstar/utils.py:115-116 | with no `W` supplied, the default `W` is used and the code as written and as intended agree |
| Utils.CallerWUnbound | moyalstar/utils.py:115-124 | with a caller's `W` and `max_order ≥ 2`, the code as written reads an unbound name, `x`, when it builds the pattern `(0, 1)`; as intended it succeeds |
| Standalone.Bopp | moyalstar.py:24-37 | fails iff the input is not commutative: "Already Bopp shifted" when `∂x'` or `∂p'` occurs, the commutativity error otherwise; on success it equals the package's `bopp` |
| Standalone.StarGuards | moyalstar.py:93-109 | with the term loop of `_eval_star` as intended, fails iff both operands hold a function or the operand to be shifted is not commutative |
| Standalone.StarAgrees | moyalstar.py:92-109 | on commutative operands the standalone `star` equals the package's |
| Standalone.StarAsWrittenAgrees | moyalstar.py:78-109 | on commutative operands the standalone `star` as written, looping over `q.args` at lines 83-85, equals the package's `star` as written |
| Standalone.StarOfScalarAsWritten | moyalstar.py:83-85 | `star(sm.Integer(2), x, do=False)` as written gives `2 + x'`; as intended `2·x'` |
| Standalone.StarOfImaginaryScalarAsWritten | moyalstar.py:83-85 | `star(sm.I/2, x, do=False)` as written gives `1/2 + I + x'`; as intended `(1/2)·I·x'` |
| Standalone.StarAcceptsPrimed | moyalstar.py:92-109 | `star(sm.S(1), x', do=False)` is refused by the package's commutativity check; the standalone module has no such check, so the call passes its guards, and the loop as intended evaluates the product |

## Left out

- SymPy's `expand`, `doit`, `collect` and `atoms` are not ported. `Normalise.Expand` distributes products over sums and expands powers of compound bases. It does not:
  - collect like terms;
  - fold numeric coefficients (for example, `-2i·(i/2)` stays the product `-2·I·(1/2)·I` and does not become `1`);
  - merge equal neighbouring factors into powers;
  - reorder commutative factors canonically;
  - expand inside the arguments of an applied function or the body of a derivative, which SymPy's `expand` does (its `deep` default). `Normalise.Expand` treats both as atoms, so a term `W(x'·(x'+p'), p')` is kept whole.
- SymPy's `Derivative` constructor is not modelled. A derivative node stays as it is built. SymPy gives 0 when the body does not hold the variable, and it merges a derivative of a derivative into one. So the model's `Derivative(1, p')` for a bare `∂p'` term is 0 in SymPy, and the nested derivatives built for a term with several operator factors are one `Derivative` there.
- The normaliser keeps a unit factor, so `1·W(x'+p', p')` stays a product of two factors. The raise of `star(sm.S(1), W(x + p, p))` is therefore shown on the product that `_eval_star` receives in SymPy (Core.EvalStarOfSumArgument), not through `star`.
- `doit` and `collect` are opaque function parameters, so no property of the derivatives' values or of the collected result is stated.
- Substitution renames a derivative's variable only when the image is a symbol. SymPy's `Subs` objects for other images are not modelled. Lemmas that compose substitutions therefore need derivative-free input or symbol-to-symbol maps.
- Core.EvalStarAsWritten: the `(variable, count)` pairs of a derivative are not expressions of the model. As written, `_eval_star` hands each pair to `_replace_diff` and adds the result to `out`; the model gives `TupleNotAddable` for every derivative with variables. This misses a pair whose variable is `∂x'` or `∂p'`, which `_replace_diff` would turn into a derivative. Such a pair does not arise: the variables of a derivative in `star`'s product are `x'` and `p'`.
- Core.FirstOp: an operator factor is `∂x'`, `∂p'` or a natural power of one of them. The source's test `ddx in qq.args` also fires on, for example, an applied function `f(∂x')`. There it reads `qq.args[1]`, which is not modelled. Such factors do not arise from `bopp` output.
- A non-real constant is one `Num` node of the model until it is expanded. `Normalise.Expand` and `Exprs.Args` read it as the product or sum SymPy holds. So `Num(I/2)` and `Mul(1/2, I)` stand for the same SymPy object, and the intended `_eval_star` of a constant returns the second form.
- Exponents are natural numbers. Negative, rational and symbolic powers are not modelled.
- Exprs.IsCommutative: as a choice of this model it also checks the variables of a derivative; SymPy's `Derivative.is_commutative` follows the body alone. The two agree on everything `star` builds, whose derivative variables are the commutative `x'` and `p'`.
- The Function `W` of `get_symbols` is unapplied. It is represented as `Apply("W", [])`. What SymPy does with a derivative of an unapplied function class is not modelled.
- `get_symbols` and `_get_symbols_0` are modelled only as constant symbol sets. This leaves out symbol names, LaTeX strings and `real=True`.
- The `out` of `_eval_star` is held as its list of terms. The running SymPy `Add` is not rebuilt after every `+=`.
- Physical claims are not modelled: associativity of `⋆`, `[x, p]⋆ = i`, and the oscillator's Moyal equation.
- `setup.py` (packaging metadata) and the notebook display are not part of this model.

## Findings

| source | as written | input that shows it | evidently intended | confidence | as-written member | corrected member |
|---|---|---|---|---|---|---|
| moyalstar/core.py:85 | `make_prime` unpacks the eight values of `get_symbols` (lines 52-57) into seven names. The same happens at lines 125, 145 and 179. | any call, e.g. `make_prime(x)` or `star(x, p)` | unpack eight names, as `moyalstar/utils.py:84` does | not executed; high | Symbols.UnpackSeven, Symbols.PackageUnpackSevenFails | Symbols.UnpackEight, Symbols.UnpackMatchingArity |
| moyalstar/core.py:183-188 | `_eval_star` loops over `q.args` of the expanded product. When that is a single term, the loop adds up its factors, or nothing, or raises when one of them is a sum; a derivative term raises on its `(variable, count)` pair; with no args and `do=True` the int `0` has no `.doit()`. The same loop stands at moyalstar.py:83-88. In `core.py` this shows only once row 1 is fixed, since its unpacking error fires first; `moyalstar.py` shows it as it stands. | `star(sm.Integer(2), x, do=False)` gives `2 + x'`; `star(sm.Integer(2), sm.Integer(3), do=False)` gives `0`, and with the default `do=True` raises `AttributeError`; `_eval_star(sm.I/2, do=False)` gives `1/2 + I`; `star(sm.I/2, x, do=False)` gives `1/2 + I + x'`; `star(sm.S(1), W(x + p, p))` raises in `_replace_diff` on `x'+p'` | loop over the terms: `q.args` for a sum, `[q]` otherwise | not executed; high | Core.EvalStarAsWritten, Core.StarAsWritten, Core.StarOfScalarAsWritten, Core.EvalStarOfConstant, Core.EvalStarOfImaginaryConstant, Core.StarOfImaginaryScalarAsWritten, Standalone.StarOfImaginaryScalarAsWritten, Core.EvalStarOfDerivative, Core.EvalStarOfSumArgument, Standalone.StarAsWritten, Standalone.StarOfScalarAsWritten | Core.EvalStar, Core.Star, Core.EvalStarSucceeds, Standalone.Star |
| moyalstar/core.py:147-176 | the scan reads the factors from `q.args`. A term that is a bare `∂x'` or `∂p'` (coefficient exactly 1) has no args, so it is returned unrewritten. The same scan stands at moyalstar.py:47-58; in `core.py` this shows only once row 1 is fixed. | `star(-2*sm.I*x, sm.S(1), do=False)`: the term `-2i·(i/2)·∂p' = ∂p'` stays an operator symbol | read a term that is not a product as a product of one factor | not executed; medium | Core.ReplaceDiffAsWritten, Core.BareOperatorSummand | Core.ReplaceDiff, Core.ReplaceFactorsNoOps, Core.ReplaceFactorsScope |
| moyalstar/utils.py:116 | `x` and `p` are bound only when `W` is None, but `dx_m_dp_n` reads them for every pattern except `(0, 0)` | `collect_by_diff(Derivative(f(x), x, x), f(x))` | bind `x` and `p` whether or not `W` is given | not executed; high | Utils.CollectByDiffAsWritten, Utils.CallerWUnbound | Utils.CollectByDiff, Utils.CollectionPatternsOrders |
