/** What the built tree looks like in terms of the token list it came from:
    where it is split, when it fails, when it has missing children, and how
    chains of one operator associate. */
module TreeShape {
  import opened Syntax
  import opened Parser

  /** The tokens of a tree read left to right; a missing child reads as nothing. */
  function InOrder(t: Ast): seq<Token>
  {
    match t
    case Absent => []
    case Lit(k, v) => [Num(k, v)]
    case Bin(op, l, r) => InOrder(l) + [Op(op)] + InOrder(r)
  }

  /** No child anywhere in the tree is missing. */
  predicate Complete(t: Ast)
  {
    match t
    case Absent => false
    case Lit(_, _) => true
    case Bin(_, l, r) => Complete(l) && Complete(r)
  }

  function LeafCount(t: Ast): nat
  {
    match t
    case Absent => 0
    case Lit(_, _) => 1
    case Bin(_, l, r) => LeafCount(l) + LeafCount(r)
  }

  function NumCount(ts: seq<Token>): nat
  {
    if ts == [] then 0 else (if ts[0].Num? then 1 else 0) + NumCount(ts[1..])
  }

  /** The shape `num (op num)*`. */
  predicate WellFormed(ts: seq<Token>)
  {
    |ts| % 2 == 1 && forall i :: 0 <= i < |ts| ==> (ts[i].Num? <==> i % 2 == 0)
  }

  /** Two numbers follow each other with no operator between them. */
  predicate AdjacentNums(ts: seq<Token>)
  {
    exists i :: 0 <= i < |ts| - 1 && ts[i].Num? && ts[i + 1].Num?
  }

  lemma Around<T>(s: seq<T>, k: int)
    requires 0 <= k < |s|
    ensures s[..k] + [s[k]] + s[k + 1..] == s
  {
  }

  /** A successful build loses no token and keeps their order. */
  lemma {:induction false} ParseInOrder(ts: seq<Token>)
    ensures Parse(ts).Ok? ==> InOrder(Parse(ts).value) == ts
    decreases |ts|
  {
    if |ts| == 1 && ts[0].Num? {
      assert [Num(ts[0].kind, ts[0].value)] == ts;
    } else if ts != [] {
      var k := LastLowestIndex(ts);
      if k >= 0 {
        ParseInOrder(ts[..k]);
        ParseInOrder(ts[k + 1..]);
        assert Op(ts[k].op) == ts[k];
        Around(ts, k);
      }
    }
  }

  /** An operator separates: two numbers are adjacent in `ts` exactly when
      they are adjacent on one side of an operator of `ts`. */
  lemma AdjacentAround(ts: seq<Token>, k: int)
    requires 0 <= k < |ts| && ts[k].Op?
    ensures AdjacentNums(ts) <==> AdjacentNums(ts[..k]) || AdjacentNums(ts[k + 1..])
  {
    var left, right := ts[..k], ts[k + 1..];
    if AdjacentNums(ts) {
      var i :| 0 <= i < |ts| - 1 && ts[i].Num? && ts[i + 1].Num?;
      if i + 1 < k {
        assert left[i] == ts[i] && left[i + 1] == ts[i + 1];
      } else {
        assert right[i - k - 1] == ts[i] && right[i - k] == ts[i + 1];
      }
    }
    if AdjacentNums(left) {
      var i :| 0 <= i < |left| - 1 && left[i].Num? && left[i + 1].Num?;
      assert ts[i] == left[i] && ts[i + 1] == left[i + 1];
    }
    if AdjacentNums(right) {
      var i :| 0 <= i < |right| - 1 && right[i].Num? && right[i + 1].Num?;
      assert ts[i + k + 1] == right[i] && ts[i + k + 2] == right[i + 1];
    }
  }

  /** The only parse error: two numbers with no operator between them. */
  lemma {:induction false} ParseErrIff(ts: seq<Token>)
    ensures Parse(ts).Err? <==> AdjacentNums(ts)
    decreases |ts|
  {
    if |ts| == 1 && ts[0].Num? {
    } else if ts != [] {
      var k := LastLowestIndex(ts);
      LastLowestIndexSpec(ts);
      if k < 0 {
        assert ts[0].Num? && ts[1].Num?;
      } else {
        ParseErrIff(ts[..k]);
        ParseErrIff(ts[k + 1..]);
        AdjacentAround(ts, k);
      }
    }
  }

  /** A tree without missing children spells a well-formed token list. */
  lemma {:induction false} CompleteInOrder(t: Ast)
    ensures Complete(t) ==> WellFormed(InOrder(t))
  {
    if t.Bin? && Complete(t) {
      CompleteInOrder(t.left);
      CompleteInOrder(t.right);
      var a, b := InOrder(t.left), InOrder(t.right);
      var s := InOrder(t);
      assert s == a + [Op(t.op)] + b;
      forall i | 0 <= i < |s|
        ensures s[i].Num? <==> i % 2 == 0
      {
        if i < |a| {
          assert s[i] == a[i];
        } else if i == |a| {
          assert s[i] == Op(t.op);
        } else {
          assert s[i] == b[i - |a| - 1];
        }
      }
    }
  }

  /** Cutting a well-formed list at an operator leaves two well-formed lists. */
  lemma WellFormedHalves(ts: seq<Token>, k: int)
    requires WellFormed(ts) && 0 <= k < |ts| && ts[k].Op?
    ensures WellFormed(ts[..k]) && WellFormed(ts[k + 1..])
  {
    var left, right := ts[..k], ts[k + 1..];
    forall i | 0 <= i < |left|
      ensures left[i].Num? <==> i % 2 == 0
    {
      assert left[i] == ts[i];
    }
    forall i | 0 <= i < |right|
      ensures right[i].Num? <==> i % 2 == 0
    {
      assert right[i] == ts[i + k + 1];
    }
  }

  /** A well-formed token list builds without error and without missing children. */
  lemma {:induction false} ParseWellFormed(ts: seq<Token>)
    requires WellFormed(ts)
    ensures Parse(ts).Ok? && Complete(Parse(ts).value)
    decreases |ts|
  {
    if |ts| > 1 {
      assert ts[1].Op?;
      LastLowestIndexSpec(ts);
      var k := LastLowestIndex(ts);
      WellFormedHalves(ts, k);
      ParseWellFormed(ts[..k]);
      ParseWellFormed(ts[k + 1..]);
    }
  }

  lemma {:induction false} NumCountAppend(a: seq<Token>, b: seq<Token>)
    ensures NumCount(a + b) == NumCount(a) + NumCount(b)
    decreases |a|
  {
    if a == [] {
      assert a + b == b;
    } else {
      assert (a + b)[1..] == a[1..] + b;
      NumCountAppend(a[1..], b);
    }
  }

  /** The leaves of a tree are the numbers it spells. */
  lemma {:induction false} LeafCountInOrder(t: Ast)
    ensures LeafCount(t) == NumCount(InOrder(t))
  {
    if t.Bin? {
      LeafCountInOrder(t.left);
      LeafCountInOrder(t.right);
      NumCountAppend(InOrder(t.left) + [Op(t.op)], InOrder(t.right));
      NumCountAppend(InOrder(t.left), [Op(t.op)]);
    } else if t.Lit? {
      assert InOrder(t)[1..] == [];
    }
  }

  /** `build_AST` fails exactly when two numbers are adjacent; otherwise the
      tree reads back as the token list and has one leaf per number; and it
      has no missing child exactly when the list is well formed. */
  lemma BuildAstShape(ts: seq<Token>)
    ensures BuildAst(ts).Err? <==> AdjacentNums(ts)
    ensures BuildAst(ts).Err? ==> BuildAst(ts).error == NoOperatorMatch
    ensures BuildAst(ts).Ok? ==> InOrder(BuildAst(ts).value) == ts && LeafCount(BuildAst(ts).value) == NumCount(ts)
    ensures (BuildAst(ts).Ok? && Complete(BuildAst(ts).value)) <==> WellFormed(ts)
  {
    BuildAstIsParse(ts);
    ParseErrIff(ts);
    ParseInOrder(ts);
    ParseErrorKind(ts);
    if Parse(ts).Ok? {
      LeafCountInOrder(Parse(ts).value);
      CompleteInOrder(Parse(ts).value);
    }
    if WellFormed(ts) {
      ParseWellFormed(ts);
    }
  }

  lemma {:induction false} ParseErrorKind(ts: seq<Token>)
    ensures Parse(ts).Err? ==> Parse(ts).error == NoOperatorMatch
    decreases |ts|
  {
    if ts != [] && !(|ts| == 1 && ts[0].Num?) {
      var k := LastLowestIndex(ts);
      if k >= 0 {
        ParseErrorKind(ts[..k]);
        ParseErrorKind(ts[k + 1..]);
      }
    }
  }

  lemma LastLowestUnique(ts: seq<Token>, a: int, b: int)
    requires IsLastLowestOp(ts, a) && IsLastLowestOp(ts, b)
    ensures a == b
  {
  }

  /** In the order given, the root is the last operator of lowest priority,
      its left child is built from the tokens before it and its right child
      from the tokens after it. */
  lemma BuildAstSplit(ts: seq<Token>, k: int)
    requires IsLastLowestOp(ts, k)
    ensures BuildAst(ts).Ok? <==> BuildAst(ts[..k]).Ok? && BuildAst(ts[k + 1..]).Ok?
    ensures BuildAst(ts).Ok? ==>
              BuildAst(ts).value == Bin(ts[k].op, BuildAst(ts[..k]).value, BuildAst(ts[k + 1..]).value)
  {
    BuildAstIsParse(ts);
    BuildAstIsParse(ts[..k]);
    BuildAstIsParse(ts[k + 1..]);
    LastLowestIndexSpec(ts);
    LastLowestUnique(ts, k, LastLowestIndex(ts));
  }

  /** Without an operator: nothing gives no node, one number gives a
      literal, and two or more numbers raise "No operator match". */
  lemma BuildAstNoOperator(ts: seq<Token>)
    requires !HasOp(ts)
    ensures BuildAst(ts) == if ts == [] then Ok(Absent)
                            else if |ts| == 1 then Ok(Lit(ts[0].kind, ts[0].value))
                            else Err(NoOperatorMatch)
  {
    BuildAstIsParse(ts);
    LastLowestIndexSpec(ts);
    if ts != [] {
      assert ts[0].Num?;
    }
  }

  /** An operator at either end of the list leaves a missing child somewhere
      in the tree, when the build does not fail outright. */
  lemma EdgeOperatorIncomplete(ts: seq<Token>)
    requires ts != [] && (ts[0].Op? || ts[|ts| - 1].Op?)
    ensures BuildAst(ts).Ok? ==> !Complete(BuildAst(ts).value)
  {
    BuildAstShape(ts);
    if ts[0].Op? {
      assert !(ts[0].Num? <==> 0 % 2 == 0);
    } else {
      var n := |ts| - 1;
      assert |ts| % 2 == 1 ==> !(ts[n].Num? <==> n % 2 == 0);
    }
  }

  /** The three shortest such lists: a lone operator, and one operator with a
      number on one side only. */
  lemma OperatorAtEdge(a: Token, op: BinOp)
    requires a.Num?
    ensures BuildAst([Op(op)]) == Ok(Bin(op, Absent, Absent))
    ensures BuildAst([a, Op(op)]) == Ok(Bin(op, Lit(a.kind, a.value), Absent))
    ensures BuildAst([Op(op), a]) == Ok(Bin(op, Absent, Lit(a.kind, a.value)))
  {
    LoneOperatorShape(op);
    TrailingOperatorShape(a, op);
    LeadingOperatorShape(a, op);
  }

  lemma LoneOperatorShape(op: BinOp)
    ensures BuildAst([Op(op)]) == Ok(Bin(op, Absent, Absent))
  {
    var one := [Op(op)];
    assert IsLastLowestOp(one, 0);
    BuildAstSplit(one, 0);
    BuildAstNoOperator(one[..0]);
    BuildAstNoOperator(one[1..]);
  }

  lemma TrailingOperatorShape(a: Token, op: BinOp)
    requires a.Num?
    ensures BuildAst([a, Op(op)]) == Ok(Bin(op, Lit(a.kind, a.value), Absent))
  {
    var trailing := [a, Op(op)];
    assert IsLastLowestOp(trailing, 1);
    BuildAstSplit(trailing, 1);
    assert trailing[..1] == [a];
    BuildAstNoOperator(trailing[..1]);
    BuildAstNoOperator(trailing[2..]);
  }

  lemma LeadingOperatorShape(a: Token, op: BinOp)
    requires a.Num?
    ensures BuildAst([Op(op), a]) == Ok(Bin(op, Absent, Lit(a.kind, a.value)))
  {
    var leading := [Op(op), a];
    assert IsLastLowestOp(leading, 0);
    BuildAstSplit(leading, 0);
    assert leading[1..] == [a];
    BuildAstNoOperator(leading[..0]);
    BuildAstNoOperator(leading[1..]);
  }

  // ---------------------------------------------------------------------------
  // Chains of one operator, and mixed priorities
  // ---------------------------------------------------------------------------

  function IntToken(n: int): Token
  {
    Num(IntKind, n as real)
  }

  /** `n0 op n1 op ... op nm` as integer tokens. */
  function Chain(ns: seq<int>, op: BinOp): (ts: seq<Token>)
    requires |ns| > 0
    ensures |ts| == 2 * |ns| - 1
    ensures forall i :: 0 <= i < |ts| ==> ts[i] == (if i % 2 == 0 then IntToken(ns[i / 2]) else Op(op))
  {
    if |ns| == 1 then [IntToken(ns[0])]
    else
      var c := Chain(ns[..|ns| - 1], op);
      c + [Op(op), IntToken(ns[|ns| - 1])]
  }

  /** `((n0 op n1) op ...) op nm`. */
  function LeftNested(ns: seq<int>, op: BinOp): Ast
    requires |ns| > 0
  {
    if |ns| == 1 then Lit(IntKind, ns[0] as real)
    else Bin(op, LeftNested(ns[..|ns| - 1], op), Lit(IntKind, ns[|ns| - 1] as real))
  }

  /** A chain of one operator groups to the left: `8 - 2 - 1` is `(8 - 2) - 1`. */
  lemma {:induction false} ChainLeftAssociative(ns: seq<int>, op: BinOp)
    requires |ns| > 0
    ensures BuildAst(Chain(ns, op)) == Ok(LeftNested(ns, op))
    decreases |ns|
  {
    var ts := Chain(ns, op);
    if |ns| == 1 {
      BuildAstNoOperator(ts);
    } else {
      var init := ns[..|ns| - 1];
      var k := |ts| - 2;
      assert ts[k] == Op(op);
      assert IsLastLowestOp(ts, k);
      BuildAstSplit(ts, k);
      assert ts[..k] == Chain(init, op);
      ChainLeftAssociative(init, op);
      var last := ts[k + 1..];
      assert last == [IntToken(ns[|ns| - 1])];
      BuildAstNoOperator(last);
    }
  }

  /** `/` (30) is split before `*` (40): `a / b * c` is `a / (b * c)`. */
  lemma DivideSplitsBeforeMultiply(a: Token, b: Token, c: Token)
    requires a.Num? && b.Num? && c.Num?
    ensures BuildAst([a, Op(Divide), b, Op(Multiply), c])
         == Ok(Bin(Divide, Lit(a.kind, a.value), Bin(Multiply, Lit(b.kind, b.value), Lit(c.kind, c.value))))
  {
    var ts := [a, Op(Divide), b, Op(Multiply), c];
    assert IsLastLowestOp(ts, 1);
    BuildAstSplit(ts, 1);
    assert ts[..1] == [a];
    BuildAstNoOperator(ts[..1]);
    var rest := ts[2..];
    assert rest == [b, Op(Multiply), c];
    assert IsLastLowestOp(rest, 1);
    BuildAstSplit(rest, 1);
    assert rest[..1] == [b] && rest[2..] == [c];
    BuildAstNoOperator(rest[..1]);
    BuildAstNoOperator(rest[2..]);
  }

  /** `+` (10) is split before `-` (20) even when it comes later:
      `a - b + c` is `(a - b) + c`. */
  lemma MinusThenAdd(a: Token, b: Token, c: Token)
    requires a.Num? && b.Num? && c.Num?
    ensures BuildAst([a, Op(Minus), b, Op(Add), c])
         == Ok(Bin(Add, Bin(Minus, Lit(a.kind, a.value), Lit(b.kind, b.value)), Lit(c.kind, c.value)))
  {
    var ts := [a, Op(Minus), b, Op(Add), c];
    assert IsLastLowestOp(ts, 3);
    BuildAstSplit(ts, 3);
    var front := ts[..3];
    assert front == [a, Op(Minus), b] && ts[4..] == [c];
    assert IsLastLowestOp(front, 1);
    BuildAstSplit(front, 1);
    assert front[..1] == [a] && front[2..] == [b];
    BuildAstNoOperator(front[..1]);
    BuildAstNoOperator(front[2..]);
    BuildAstNoOperator(ts[4..]);
  }

  /** `+` (10) is split before `-` (20) when it comes first too:
      `a + b - c` is `a + (b - c)`. */
  lemma AddThenMinus(a: Token, b: Token, c: Token)
    requires a.Num? && b.Num? && c.Num?
    ensures BuildAst([a, Op(Add), b, Op(Minus), c])
         == Ok(Bin(Add, Lit(a.kind, a.value), Bin(Minus, Lit(b.kind, b.value), Lit(c.kind, c.value))))
  {
    var us := [a, Op(Add), b, Op(Minus), c];
    assert IsLastLowestOp(us, 1);
    BuildAstSplit(us, 1);
    var back := us[2..];
    assert us[..1] == [a] && back == [b, Op(Minus), c];
    assert IsLastLowestOp(back, 1);
    BuildAstSplit(back, 1);
    assert back[..1] == [b] && back[2..] == [c];
    BuildAstNoOperator(us[..1]);
    BuildAstNoOperator(back[..1]);
    BuildAstNoOperator(back[2..]);
  }
}
