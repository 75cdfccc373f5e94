/** Tokens, syntax trees, errors and the operator priority table shared by the
    tokenizer, the tree builder and the evaluator of the arithmetic parser. */
module Syntax {

  /** The numeric kind a literal word was recognised as (the `Identifier` enum). */
  datatype NumKind = IntKind | FloatKind

  /** The four binary operators (the `Basic_Operator` enum without its `operator` tag). */
  datatype BinOp = Add | Minus | Multiply | Divide

  /** A token: a number tagged with its kind, or an operator.  Numeric values are
      kept as exact reals; an integer token always holds an integral value. */
  datatype Token = Num(kind: NumKind, value: real) | Op(op: BinOp)

  /** A syntax tree as the builder produces it.  `Absent` stands for the `None`
      that the builder returns for an empty slice; `Lit` is a `P_Integer` node,
      which keeps the token's (typed) value; `Bin` is one of the four operator
      nodes with its left and right part. */
  datatype Ast = Absent | Lit(kind: NumKind, value: real) | Bin(op: BinOp, left: Ast, right: Ast)

  /** Everything that can go wrong between the input string and the value:
      the builder's "No operator match" exception, evaluating a missing child
      (an attribute lookup on `None`), and division by zero. */
  datatype Error = NoOperatorMatch | MissingOperand | DivisionByZero

  datatype Option<T> = None | Some(value: T)

  datatype Result<T> = Ok(value: T) | Err(error: Error) {
    predicate IsFailure() { Err? }

    function PropagateFailure<U>(): Result<U>
      requires Err?
    {
      Err(error)
    }

    function Extract(): T
      requires Ok?
    {
      value
    }
  }

  /** The priority table: a lower number is split first, so it binds more loosely. */
  function Priority(op: BinOp): (p: int)
    // every priority is below the initial bound 100 of the scan for the lowest one
    ensures 0 < p < 100
  {
    match op
    case Add => 10
    case Minus => 20
    case Multiply => 40
    case Divide => 30
  }

  /** The word that spells an operator. */
  function Symbol(op: BinOp): string
  {
    match op
    case Add => "+"
    case Minus => "-"
    case Multiply => "*"
    case Divide => "/"
  }
}
