/** Evaluating a syntax tree (`evaluate` on the four operator nodes and on
    `P_Integer`). */
module Evaluator {
  import opened Syntax
  import opened TreeShape

  /** A number as evaluation produces it: an `int`, or a `float` taken as an
      exact real. */
  datatype Value = IntV(i: int) | FloatV(r: real)

  function ToReal(v: Value): real
  {
    match v
    case IntV(i) => i as real
    case FloatV(r) => r
  }

  /** `int(x)` of a number: truncation toward zero. */
  function Trunc(x: real): (n: int)
    ensures x >= 0.0 ==> n as real <= x < n as real + 1.0
    ensures x < 0.0 ==> n as real - 1.0 < x <= n as real
  {
    if x >= 0.0 then x.Floor else -((-x).Floor)
  }

  /** The one integer a value truncates to. */
  lemma TruncBetween(x: real, n: int)
    requires (n >= 0 && n as real <= x < n as real + 1.0) || (n <= 0 && n as real - 1.0 < x <= n as real)
    ensures Trunc(x) == n
  {
  }

  /** Exact arithmetic on reals: the value an operator node stands for. */
  function Exact(op: BinOp, x: real, y: real): real
    requires op == Divide ==> y != 0.0
  {
    match op
    case Add => x + y
    case Minus => x - y
    case Multiply => x * y
    case Divide => x / y
  }

  /** The integer operations agree with the exact ones. */
  lemma IntOpExact(op: BinOp, m: int, n: int)
    requires op != Divide
    ensures IntOp(op, m, n) as real == Exact(op, m as real, n as real)
  {
  }

  function IntOp(op: BinOp, m: int, n: int): int
    requires op != Divide
  {
    match op
    case Add => m + n
    case Minus => m - n
    case Multiply => m * n
  }

  /** One operator node combining its evaluated operands.  `+`, `-` and `*`
      keep two ints an int and give a float otherwise; `/` is true division,
      always a float, and fails on a zero divisor. */
  function Apply(op: BinOp, a: Value, b: Value): (r: Result<Value>)
    ensures r.Err? <==> op == Divide && ToReal(b) == 0.0
    ensures r.Err? ==> r.error == DivisionByZero
    ensures r.Ok? ==> ToReal(r.value) == Exact(op, ToReal(a), ToReal(b))
    ensures r.Ok? ==> (r.value.IntV? <==> op != Divide && a.IntV? && b.IntV?)
  {
    if op == Divide then
      if ToReal(b) == 0.0 then Err(DivisionByZero) else Ok(FloatV(ToReal(a) / ToReal(b)))
    else if a.IntV? && b.IntV? then
      IntOpExact(op, a.i, b.i);
      Ok(IntV(IntOp(op, a.i, b.i)))
    else
      Ok(FloatV(Exact(op, ToReal(a), ToReal(b))))
  }

  /** `evaluate`: a literal gives `int` of its value; an operator node
      evaluates its left part, then its right part, then combines them; a
      missing part cannot be evaluated. */
  function Eval(t: Ast): Result<Value>
  {
    match t
    case Absent => Err(MissingOperand)
    case Lit(_, v) => Ok(IntV(Trunc(v)))
    case Bin(op, l, r) =>
      var a :- Eval(l);
      var b :- Eval(r);
      Apply(op, a, b)
  }

  /** An integer literal evaluates to itself. */
  lemma IntLiteral(n: int)
    ensures Eval(Lit(IntKind, n as real)) == Ok(IntV(n))
  {
    assert Trunc(n as real) == n;
  }

  predicate HasDivide(t: Ast)
  {
    match t
    case Bin(op, l, r) => op == Divide || HasDivide(l) || HasDivide(r)
    case _ => false
  }

  /** The result is an int exactly when the tree has no division; a tree that
      evaluates has no missing part; and a complete tree fails only by
      dividing by zero, which cannot happen without a division. */
  lemma {:induction false} EvalOutcome(t: Ast)
    ensures Eval(t).Ok? ==> (Eval(t).value.IntV? <==> !HasDivide(t))
    ensures Eval(t).Ok? ==> Complete(t)
    ensures Eval(t).Err? ==> Eval(t).error != NoOperatorMatch
    ensures Complete(t) && Eval(t).Err? ==> Eval(t).error == DivisionByZero
    ensures Complete(t) && !HasDivide(t) ==> Eval(t).Ok?
  {
    if t.Bin? {
      EvalOutcome(t.left);
      EvalOutcome(t.right);
    }
  }

  function Sum(ns: seq<int>): int
  {
    if ns == [] then 0 else Sum(ns[..|ns| - 1]) + ns[|ns| - 1]
  }

  /** Because a chain of one operator groups to the left, a chain of `-`
      subtracts every later number from the first, and a chain of `+` adds
      them all. */
  lemma {:induction false} ChainValue(ns: seq<int>)
    requires |ns| > 0
    ensures Eval(LeftNested(ns, Minus)) == Ok(IntV(ns[0] - Sum(ns[1..])))
    ensures Eval(LeftNested(ns, Add)) == Ok(IntV(Sum(ns)))
    decreases |ns|
  {
    if |ns| == 1 {
      assert ns[1..] == [];
      IntLiteral(ns[0]);
    } else {
      var n := |ns| - 1;
      var init := ns[..n];
      ChainValue(init);
      IntLiteral(ns[n]);
      assert LeftNested(ns, Minus) == Bin(Minus, LeftNested(init, Minus), Lit(IntKind, ns[n] as real));
      assert LeftNested(ns, Add) == Bin(Add, LeftNested(init, Add), Lit(IntKind, ns[n] as real));
      assert Sum(ns[1..]) == Sum(init[1..]) + ns[n] by {
        assert ns[1..][..n - 1] == init[1..];
      }
    }
  }
}
