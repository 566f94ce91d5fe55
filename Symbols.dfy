/**
 * The symbol set returned by `get_symbols` and the tuple unpackings that
 * read it.  The package version returns eight values (with the Function
 * `W`), the standalone module seven; `moyalstar/core.py` unpacks the
 * eight-value tuple into seven names.
 */
module Symbols {
  import opened Exprs

  /** One value of the tuple `get_symbols` returns. */
  datatype Value = Imag | FunctionW | Symbol(s: Sym)

  /** `get_symbols()` of the package: `I, W, x, p, xx, pp, ddx, ddp`. */
  function PackageSymbols(): seq<Value>
  {
    [Imag, FunctionW, Symbol(X), Symbol(P), Symbol(XPrime), Symbol(PPrime), Symbol(DX), Symbol(DP)]
  }

  /** `get_symbols()` of the standalone module: `I, x, p, xx, pp, ddx, ddp`. */
  function StandaloneSymbols(): seq<Value>
  {
    [Imag, Symbol(X), Symbol(P), Symbol(XPrime), Symbol(PPrime), Symbol(DX), Symbol(DP)]
  }

  /** The names `I, x, p, xx, pp, ddx, ddp` after an unpacking. */
  datatype Binding = Binding(i: Value, x: Value, p: Value, xx: Value, pp: Value, ddx: Value, ddp: Value)

  /** The binding the rest of the model is written against. */
  function Intended(): Binding
  {
    Binding(Imag, Symbol(X), Symbol(P), Symbol(XPrime), Symbol(PPrime), Symbol(DX), Symbol(DP))
  }

  /**
   * `I, x, p, xx, pp, ddx, ddp = t`: Python binds the names in order and
   * raises unless `t` has exactly seven values.
   */
  function UnpackSeven(t: seq<Value>): (r: Result<Binding>)
    ensures r.Success? <==> |t| == 7
    ensures r.Failure? ==> r.error == UnpackMismatch
    ensures r.Success? ==> [r.value.i, r.value.x, r.value.p, r.value.xx, r.value.pp, r.value.ddx, r.value.ddp] == t
  {
    if |t| != 7 then Failure(UnpackMismatch)
    else Success(Binding(t[0], t[1], t[2], t[3], t[4], t[5], t[6]))
  }

  /**
   * `I, W, x, p, xx, pp, ddx, ddp = t`: eight names; the second is the
   * Function `W`, the other seven form a `Binding`.
   */
  function UnpackEight(t: seq<Value>): (r: Result<(Value, Binding)>)
    ensures r.Success? <==> |t| == 8
    ensures r.Failure? ==> r.error == UnpackMismatch
    ensures r.Success? ==> var (w, b) := r.value; [b.i, w, b.x, b.p, b.xx, b.pp, b.ddx, b.ddp] == t
  {
    if |t| != 8 then Failure(UnpackMismatch)
    else Success((t[1], Binding(t[0], t[2], t[3], t[4], t[5], t[6], t[7])))
  }

  /** The package's seven-name unpacking of its own eight-value tuple always raises. */
  lemma PackageUnpackSevenFails()
    ensures UnpackSeven(PackageSymbols()) == Failure(UnpackMismatch)
  {
  }

  /**
   * Unpacked with the right number of names, both versions of
   * `get_symbols` give the intended binding, and the package's second
   * value is the Function `W`.
   */
  lemma UnpackMatchingArity()
    ensures UnpackSeven(StandaloneSymbols()) == Success(Intended())
    ensures UnpackEight(PackageSymbols()) == Success((FunctionW, Intended()))
  {
  }

  /** Removing `W` from the package's tuple gives the standalone tuple. */
  lemma PackageIsStandalonePlusW()
    ensures PackageSymbols() == StandaloneSymbols()[..1] + [FunctionW] + StandaloneSymbols()[1..]
  {
  }
}
