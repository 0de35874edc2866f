/** Result types shared by the rewriting engine and its facade. */
module Outcomes {

  /** A value that may be absent: Python's `None` versus a present value. */
  datatype Option<+T> = None | Some(value: T)

  /** The outcome of an operation built on the unbounded loops of `knuthbendix.py`.
      - Ok: the loops finished and returned `value`;
      - OutOfFuel: some `while` loop needed more iterations than the fuel bound allowed
        (whether more iterations would have ended is not known);
      - UnrankedSymbol: a shortlex comparison met a symbol missing from the supplied
        alphabet order (the Python code raises `KeyError`). */
  datatype Run<+T> = Ok(value: T) | OutOfFuel | UnrankedSymbol
}
