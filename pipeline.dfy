/** The whole pipeline (`main`): split the input into words, tokenize them,
    build the tree and evaluate it. */
module Pipeline {
  import opened Syntax
  import opened Lexer
  import opened Parser
  import opened TreeShape
  import opened Evaluator

  /** What `main` returns for an input string, or the error it raises. */
  function Evaluate(input: string): Result<Value>
  {
    EvalTokens(Tokens(Split(input)))
  }

  /** Building the tree of a token list and evaluating it. */
  function EvalTokens(ts: seq<Token>): Result<Value>
  {
    var ast :- BuildAst(ts);
    Eval(ast)
  }

  /** `main`.  The parse fails exactly when two numbers end up next to each
      other; a value comes out only when the tokens have the form
      `num (op num)*`; and on such tokens the only failure is a division by zero. */
  method Run(input: string) returns (value: Result<Value>)
    ensures value == Evaluate(input)
    ensures value == Err(NoOperatorMatch) <==> AdjacentNums(Tokens(Split(input)))
    ensures value.Ok? ==> WellFormed(Tokens(Split(input)))
    ensures WellFormed(Tokens(Split(input))) && value.Err? ==> value.error == DivisionByZero
  {
    var wordList := Split(input);
    var tokenList := Tokenize(wordList);
    var ast := BuildAst(tokenList);
    BuildAstShape(tokenList);
    if ast.Err? {
      value := Err(ast.error);
    } else {
      value := Eval(ast.value);
      EvalOutcome(ast.value);
    }
  }

  /** Evaluating a single word that gives the number token `t`. */
  lemma SingleNumber(w: string, t: Token)
    requires w != [] && SpaceFree(w)
    requires TokenOf(w) == Some(t) && t.Num?
    ensures Evaluate(w) == Ok(IntV(Trunc(t.value)))
  {
    SplitWord(w);
    TokensOfWord(w);
    var ts := Tokens(Split(w));
    assert ts == [t];
    BuildAstNoOperator(ts);
    assert BuildAst(ts) == Ok(Lit(t.kind, t.value));
  }

  /** An integer word alone evaluates to its own value. */
  lemma SingleInteger(w: string)
    requires IsInt(w)
    ensures Evaluate(w) == Ok(IntV(IntValue(w)))
  {
    IntegerWord(w);
    var n := IntValue(w);
    SingleNumber(w, IntToken(n));
    assert Trunc(n as real) == n;
  }

  /** A float word alone evaluates to an int, not to itself: `int` of its
      value keeps the signed digits before the dot and drops the fraction. */
  lemma SingleFloat(w: string)
    requires IsPointDecimal(Unsigned(w))
    ensures Evaluate(w) == Ok(IntV(Trunc(PointValue(w))))
    ensures var d := Unsigned(w);
      Evaluate(w) == Ok(IntV(SignOf(w) * DigitsValue(d[..DotIndex(d)])))
  {
    PointDecimalWord(w);
    SingleNumber(w, Num(FloatKind, PointValue(w)));
    var d := Unsigned(w);
    PointValueParts(w);
    TruncBetween(PointValue(w), SignOf(w) * DigitsValue(d[..DotIndex(d)]));
  }

  /** A point-decimal word is a single word, fails the integer test because of
      its dot, and so becomes a float token. */
  lemma PointDecimalWord(w: string)
    requires IsPointDecimal(Unsigned(w))
    ensures w != [] && SpaceFree(w) && !IsInt(w)
    ensures TokenOf(w) == Some(Num(FloatKind, PointValue(w)))
  {
    var d := Unsigned(w);
    var k := DotIndex(d);
    assert !IsDigit(d[k]);
    forall i | 0 <= i < |w|
      ensures !IsSpace(w[i])
    {
      if !(HasSign(w) && i == 0) {
        var j := if HasSign(w) then i - 1 else i;
        assert d[j] == w[i];
        if j < k {
          assert d[..k][j] == d[j];
        } else if j > k {
          assert d[k + 1..][j - k - 1] == d[j];
        }
      }
    }
    TokenOfClassification(w);
  }

  // ---------------------------------------------------------------------------
  // Worked examples
  // ---------------------------------------------------------------------------

  lemma {:induction false} TokensOfKnown(ws: seq<string>, ts: seq<Token>)
    requires |ws| == |ts|
    requires forall i :: 0 <= i < |ws| ==> TokenOf(ws[i]) == Some(ts[i])
    ensures Tokens(ws) == ts
    decreases |ws|
  {
    if ws != [] {
      var n := |ws| - 1;
      TokensOfKnown(ws[..n], ts[..n]);
      PrefixLast(ts);
    }
  }

  lemma PrefixLast<T>(s: seq<T>)
    requires s != []
    ensures s[..|s| - 1] + [s[|s| - 1]] == s
  {
  }

  /** The tokens of a string that is words joined by spaces, when each
      word's token is known. */
  lemma WordsToTokens(s: string, ws: seq<string>, ts: seq<Token>)
    requires Join(ws) == s
    requires forall i :: 0 <= i < |ws| ==> ws[i] != [] && SpaceFree(ws[i])
    requires |ws| == |ts|
    requires forall i :: 0 <= i < |ws| ==> TokenOf(ws[i]) == Some(ts[i])
    ensures Tokens(Split(s)) == ts
  {
    SplitJoin(ws);
    TokensOfKnown(ws, ts);
  }

  /** An integer word is a single word whose token is its value. */
  lemma IntegerWord(w: string)
    requires IsInt(w)
    ensures w != [] && SpaceFree(w)
    ensures TokenOf(w) == Some(IntToken(IntValue(w)))
  {
    TokenOfClassification(w);
    var d := Unsigned(w);
    forall i | 0 <= i < |w|
      ensures !IsSpace(w[i])
    {
      if !(HasSign(w) && i == 0) {
        var j := if HasSign(w) then i - 1 else i;
        assert d[j] == w[i];
      }
    }
  }

  /** An operator symbol is a single word whose token is that operator. */
  lemma SymbolWord(op: BinOp)
    ensures Symbol(op) != [] && SpaceFree(Symbol(op))
    ensures TokenOf(Symbol(op)) == Some(Op(op))
  {
    TokenOfClassification(Symbol(op));
  }

  /** `m op n` on integer tokens. */
  lemma BinaryTokens(m: int, op: BinOp, n: int)
    ensures var v := EvalTokens([IntToken(m), Op(op), IntToken(n)]);
      && (op != Divide ==> v == Ok(IntV(IntOp(op, m, n))))
      && (op == Divide && n != 0 ==> v == Ok(FloatV(m as real / n as real)))
      && (op == Divide && n == 0 ==> v == Err(DivisionByZero))
  {
    var ts := [IntToken(m), Op(op), IntToken(n)];
    assert ts == Chain([m, n], op);
    assert [m, n][..1] == [m];
    ChainLeftAssociative([m, n], op);
    IntLiteral(m);
    IntLiteral(n);
  }

  /** Two integer tokens with no operator. */
  lemma AdjacentTokens(m: int, n: int)
    ensures EvalTokens([IntToken(m), IntToken(n)]) == Err(NoOperatorMatch)
  {
    BuildAstNoOperator([IntToken(m), IntToken(n)]);
  }

  /** An operator with an integer token on one side only. */
  lemma DanglingTokens(n: int, op: BinOp)
    ensures EvalTokens([IntToken(n), Op(op)]) == Err(MissingOperand)
    ensures EvalTokens([Op(op), IntToken(n)]) == Err(MissingOperand)
  {
    OperatorAtEdge(IntToken(n), op);
    IntLiteral(n);
    var lit := Lit(IntKind, n as real);
    assert BuildAst([IntToken(n), Op(op)]) == Ok(Bin(op, lit, Absent));
    assert Eval(Bin(op, lit, Absent)) == Err(MissingOperand);
  }

  /** `m / n * k` on integer tokens. */
  lemma DivideMultiplyTokens(m: int, n: int, k: int)
    ensures var v := EvalTokens([IntToken(m), Op(Divide), IntToken(n), Op(Multiply), IntToken(k)]);
      && (n * k != 0 ==> v == Ok(FloatV(m as real / (n * k) as real)))
      && (n * k == 0 ==> v == Err(DivisionByZero))
  {
    DivideSplitsBeforeMultiply(IntToken(m), IntToken(n), IntToken(k));
    IntLiteral(m);
    IntLiteral(n);
    IntLiteral(k);
    var product := Bin(Multiply, Lit(IntKind, n as real), Lit(IntKind, k as real));
    assert Eval(product) == Ok(IntV(n * k));
    assert ((n * k) as real == 0.0) == (n * k == 0);
  }

  /** `m - n - k` on integer tokens. */
  lemma SubtractTwiceTokens(m: int, n: int, k: int)
    ensures EvalTokens([IntToken(m), Op(Minus), IntToken(n), Op(Minus), IntToken(k)]) == Ok(IntV(m - n - k))
  {
    var ns := [m, n, k];
    assert ns[..2] == [m, n] && [m, n][..1] == [m];
    assert [IntToken(m), Op(Minus), IntToken(n), Op(Minus), IntToken(k)] == Chain(ns, Minus);
    ChainLeftAssociative(ns, Minus);
    ChainValue(ns);
    assert ns[1..] == [n, k] && [n, k][..1] == [n] && [n][..0] == [];
    assert Sum([n, k]) == Sum([n]) + k == n + k;
  }

  /** `a op b` for integer words: `+`, `-` and `*` give the integer result,
      `/` gives the exact quotient as a float or fails on a zero divisor. */
  lemma BinaryExpression(a: string, op: BinOp, b: string)
    requires IsInt(a) && IsInt(b)
    ensures var v := Evaluate(a + " " + Symbol(op) + " " + b);
      var m, n := IntValue(a), IntValue(b);
      && (op != Divide ==> v == Ok(IntV(IntOp(op, m, n))))
      && (op == Divide && n != 0 ==> v == Ok(FloatV(m as real / n as real)))
      && (op == Divide && n == 0 ==> v == Err(DivisionByZero))
  {
    var input := a + " " + Symbol(op) + " " + b;
    var ts := [IntToken(IntValue(a)), Op(op), IntToken(IntValue(b))];
    assert Tokens(Split(input)) == ts by {
      IntegerWord(a);
      IntegerWord(b);
      SymbolWord(op);
      JoinThree(a, Symbol(op), b);
      WordsToTokens(input, [a, Symbol(op), b], ts);
    }
    BinaryTokens(IntValue(a), op, IntValue(b));
  }

  /** Two integer words with nothing between them raise "No operator match". */
  lemma AdjacentIntegers(a: string, b: string)
    requires IsInt(a) && IsInt(b)
    ensures Evaluate(a + " " + b) == Err(NoOperatorMatch)
  {
    var input, ws, ts := a + " " + b, [a, b], [IntToken(IntValue(a)), IntToken(IntValue(b))];
    assert Evaluate(input) == EvalTokens(ts) by {
      IntegerWord(a);
      IntegerWord(b);
      assert Join(ws) == input;
      WordsToTokens(input, ws, ts);
    }
    AdjacentTokens(IntValue(a), IntValue(b));
  }

  /** An operator after a single integer word builds a node whose right part
      is missing, which cannot be evaluated. */
  lemma TrailingOperator(a: string, op: BinOp)
    requires IsInt(a)
    ensures Evaluate(a + " " + Symbol(op)) == Err(MissingOperand)
  {
    var input, ws, ts := a + " " + Symbol(op), [a, Symbol(op)], [IntToken(IntValue(a)), Op(op)];
    assert Tokens(Split(input)) == ts by {
      IntegerWord(a);
      SymbolWord(op);
      assert Join(ws) == input;
      WordsToTokens(input, ws, ts);
    }
    DanglingTokens(IntValue(a), op);
  }

  /** An operator before a single integer word builds a node whose left part
      is missing, which cannot be evaluated. */
  lemma LeadingOperator(a: string, op: BinOp)
    requires IsInt(a)
    ensures Evaluate(Symbol(op) + " " + a) == Err(MissingOperand)
  {
    var input, ws, ts := Symbol(op) + " " + a, [Symbol(op), a], [Op(op), IntToken(IntValue(a))];
    assert Tokens(Split(input)) == ts by {
      IntegerWord(a);
      SymbolWord(op);
      assert Join(ws) == input;
      WordsToTokens(input, ws, ts);
    }
    DanglingTokens(IntValue(a), op);
  }

  /** The tokens of three integer words with two operators between them. */
  lemma FiveWordTokens(a: string, op1: BinOp, b: string, op2: BinOp, c: string)
    requires IsInt(a) && IsInt(b) && IsInt(c)
    ensures Tokens(Split(a + " " + Symbol(op1) + " " + b + " " + Symbol(op2) + " " + c))
         == [IntToken(IntValue(a)), Op(op1), IntToken(IntValue(b)), Op(op2), IntToken(IntValue(c))]
    ensures Evaluate(a + " " + Symbol(op1) + " " + b + " " + Symbol(op2) + " " + c)
         == EvalTokens([IntToken(IntValue(a)), Op(op1), IntToken(IntValue(b)), Op(op2), IntToken(IntValue(c))])
  {
    IntegerWord(a);
    IntegerWord(b);
    IntegerWord(c);
    SymbolWord(op1);
    SymbolWord(op2);
    JoinFive(a, Symbol(op1), b, Symbol(op2), c);
    WordsToTokens(a + " " + Symbol(op1) + " " + b + " " + Symbol(op2) + " " + c, [a, Symbol(op1), b, Symbol(op2), c],
      [IntToken(IntValue(a)), Op(op1), IntToken(IntValue(b)), Op(op2), IntToken(IntValue(c))]);
  }

  /** `a / b * c` divides `a` by the product `b * c`. */
  lemma DivideThenMultiply(a: string, b: string, c: string)
    requires IsInt(a) && IsInt(b) && IsInt(c)
    ensures var v := Evaluate(a + " " + Symbol(Divide) + " " + b + " " + Symbol(Multiply) + " " + c);
      var m, n, k := IntValue(a), IntValue(b), IntValue(c);
      && (n * k != 0 ==> v == Ok(FloatV(m as real / (n * k) as real)))
      && (n * k == 0 ==> v == Err(DivisionByZero))
  {
    var input := a + " " + Symbol(Divide) + " " + b + " " + Symbol(Multiply) + " " + c;
    var m, n, k := IntValue(a), IntValue(b), IntValue(c);
    var ts := [IntToken(m), Op(Divide), IntToken(n), Op(Multiply), IntToken(k)];
    assert Evaluate(input) == EvalTokens(ts) by {
      FiveWordTokens(a, Divide, b, Multiply, c);
    }
    DivideMultiplyTokens(m, n, k);
  }

  /** Three words joined by single spaces. */
  lemma JoinThree(a: string, b: string, c: string)
    ensures Join([a, b, c]) == a + " " + b + " " + c
  {
    var ws := [a, b, c];
    assert ws[1..] == [b, c] && ws[1..][1..] == [c];
    assert Join([b, c]) == b + " " + c;
  }

  /** Five words joined by single spaces. */
  lemma JoinFive(a: string, b: string, c: string, d: string, e: string)
    ensures Join([a, b, c, d, e]) == a + " " + b + " " + c + " " + d + " " + e
  {
    var ws := [a, b, c, d, e];
    assert ws[1..] == [b, c, d, e] && ws[1..][1..] == [c, d, e];
    assert ws[1..][1..][1..] == [d, e] && ws[1..][1..][1..][1..] == [e];
    assert Join([d, e]) == d + " " + e;
    JoinThree(c, d, e);
    assert Join([b, c, d, e]) == b + " " + (c + " " + d + " " + e);
  }

  /** An input without tokens (empty, blank, or only unrecognised words) builds
      no tree at all, and evaluating the missing tree fails. */
  lemma NoTokens(input: string)
    requires Tokens(Split(input)) == []
    ensures Evaluate(input) == Err(MissingOperand)
  {
    BuildAstNoOperator([]);
  }

  /** A leading word that is neither a number nor an operator is dropped. */
  lemma UnknownWordIgnored(w: string, s: string)
    requires w != [] && SpaceFree(w) && TokenOf(w) == None
    ensures Evaluate(w + " " + s) == Evaluate(s)
  {
    assert Tokens(Split(w + " " + s)) == Tokens(Split(s)) by {
      SplitCons(w, s);
      TokensAppend([w], Split(s));
      TokensOfWord(w);
    }
  }
}
