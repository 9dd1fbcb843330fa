/** The boundary to the formula collaborator. The expression tree, its parser
    and its evaluator are outside this model: a formula is known only by its
    canonical expression text and the cells it references, parsing is a
    function that may fail, and evaluation is a function to a number or an
    evaluation error. */
module Formulas {
  import opened Common

  /** The evaluator's floating-point numbers, kept opaque. */
  type Number(==)

  /** Evaluation errors (division by zero and the like), kept opaque. */
  type FormulaError(==)

  /** The value a cell shows: a number, a string or an evaluation error. */
  datatype Value = Num(n: Number) | Str(s: string) | Err(e: FormulaError)

  /** What evaluating a formula yields: a number or an evaluation error. */
  datatype EvalResult = Evaluated(n: Number) | Failed(e: FormulaError)

  /** A parsed formula: its canonical re-rendering (without the leading '=')
      and the positions its expression tree references, in order. */
  datatype Formula = Formula(expression: string, cells: seq<Position>)

  /** Parses the text after '='; None stands for the formula exception. */
  type Parser = string -> Option<Formula>

  /** Evaluates a formula against the current sheet. */
  type Evaluator = Formula -> EvalResult

  /** The value stored in a formula's cache for an evaluation result. */
  function CacheOf(e: EvalResult): (v: Value)
    ensures !v.Str?
    ensures e.Evaluated? <==> v.Num?
  {
    match e
    case Evaluated(n) => Num(n)
    case Failed(err) => Err(err)
  }
}
