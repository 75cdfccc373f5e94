# Arithmetic parser — a Dafny model

This project models `parser.py` of the Arithmetic_Parser repository. The program evaluates a
whitespace-separated arithmetic expression such as `2 * 3 + 1` in four stages:

1. `word_splitter` splits the input into words.
2. `tokenizer` turns each word into a number token or an operator token, or drops it.
   The integer test runs before the float test.
3. `build_AST` reverses the token list. `recur_build_ast` then splits each slice at the first
   operator of strictly lowest priority (`+` 10, `-` 20, `/` 30, `*` 40). The tokens after the
   split point form the left child and the tokens before it the right child.
4. `evaluate` computes the value of the tree. A leaf is `int` of its value, even for a float
   token.

The model has one module per stage, plus a module for the data:

- `syntax.dfy` (`Syntax`) defines the tokens, the trees, the errors, the priority table and the
  operator symbols.
- `lexer.dfy` (`Lexer`) models word splitting and the recognition of numbers and operators. The
  tokenizer loop is the method `Tokenize`, proved against the function `Tokens`.
- `parser.dfy` (`Parser`) models the priority scan. The loop is the method `GetLowestPriority`,
  proved against the function `LowestIndex`. The builder is `RecurBuild`/`BuildAst`, written
  with the reversal and the swapped children exactly as in the source. The module also proves
  that this builder equals a direct parse, `Parse`, which splits the unreversed list at its
  LAST operator of lowest priority.
- `shape.dfy` (`TreeShape`) proves what the builder produces:
  - read back left to right, the tree gives the tokens it was built from;
  - the build fails exactly when two numbers are adjacent;
  - an alternating `num (op num)*` list builds with no missing child;
  - a chain of one operator groups to the left.
- `evaluator.dfy` (`Evaluator`) models `evaluate` and proves the kind of each result and when
  evaluation fails.
- `pipeline.dfy` (`Pipeline`) models `main` and proves results for whole expression strings.

How the model represents values and errors:

- A number token keeps its value as an exact `real` and its kind as `IntKind` or `FloatKind`.
- An evaluated value is `IntV(int)` or `FloatV(real)`:
  - `+`, `-` and `*` of two ints give an int;
  - `/` always gives a float;
  - any operation with a float operand gives a float.
- `recur_build_ast` returns `None` for an empty slice. The model writes this as the tree
  `Absent`.
- The model uses three error values:
  - `NoOperatorMatch` is the exception the builder raises;
  - `MissingOperand` stands for evaluating `None`;
  - `DivisionByZero` stands for dividing by zero.

Some of the program's behaviour is easy to misread. The model follows the code in each case:

- **Tie-breaking.** The scan's strict `<` picks the earliest lowest operator of the *reversed*
  list. In the input's own order, the split is therefore at the rightmost operator of lowest
  priority. This is why `8 - 2 - 1` is `(8 - 2) - 1`.
- **Precedence.** `/` has a lower number than `*`, so `/` is split first. `a / b * c` is
  therefore `a / (b * c)`, and `8 / 2 * 2` evaluates to `2.0`. Likewise `a + b - c` is
  `a + (b - c)`.
- **Float words.** A word such as `5.5` evaluates to the int `5`, not to `5.5`, because a leaf
  evaluates to `int(value)`.
- **Inputs without tokens.** An input with no tokens builds no tree (`None`), so evaluating it
  fails. An operator at either end of the input does the same for one child.

## Model

| member | source | states |
|---|---|---|
| Syntax.Priority | parser.py:24-29 | every operator priority is positive and below the scan's initial bound 100, so the first operator seen is always taken |
| Lexer.DropSpaces | parser.py:184-185 | the result is a suffix of the input, and it is empty or starts with a non-whitespace character |
| Lexer.LeadingWord | parser.py:184-185 | the result is a whitespace-free prefix that ends at whitespace or at the end of the input, and it is non-empty when the input starts with a non-whitespace character |
| Lexer.SplitKeepsCharacters | parser.py:184-185 | the words, put together, are exactly the input's non-whitespace characters in their original order |
| Lexer.SplitWords | parser.py:184-185 | every word of the split is non-empty and contains no whitespace |
| Lexer.SplitCons | parser.py:184-185 | a whitespace-free word followed by a space splits off as the first word |
| Lexer.SplitWord | parser.py:184-185 | a single whitespace-free word splits into itself |
| Lexer.SplitJoin | parser.py:184-185 | splitting words joined by single spaces gives back exactly those words (the inverse of joining) |
| Lexer.SplitAppend | parser.py:184-185 | two pieces of input that meet at whitespace (or where one is empty) split into the words of the first followed by the words of the second, so word boundaries depend on whitespace alone, whatever the runs of blanks |
| Lexer.NumTk | parser.py:100-104 | a token exists exactly for numeric words; an integer word always gives an int-kind token of its own value; a float-kind token only comes from a word that the integer test rejects |
| Lexer.OperatorTkSymbol | parser.py:108-119 | a word gives the operator token of `op` exactly when it is `op`'s symbol, and gives some operator token exactly when it is one of `+ - * /` |
| Lexer.TokenOfClassification | parser.py:189-196 | an operator symbol is never numeric; each symbol gives its own operator token; a word gives a token exactly when it is numeric or an operator; an integer word gives its int token |
| Lexer.Tokenize | parser.py:189-196 | the loop's output is the specification `Tokens` of the word list, and it has no more tokens than there are words |
| Lexer.TokensAppend | parser.py:189-196 | tokens keep the order of the words: the tokens of `a + b` are the tokens of `a` followed by those of `b` |
| Lexer.TokensLength | parser.py:191-195 | each word yields at most one token |
| Lexer.TokensOfWord | parser.py:191-195 | a single word yields exactly its own token, or nothing |
| Lexer.UnrecognisedWordVanishes | parser.py:192-195 | a word that is neither numeric nor an operator can be removed from anywhere in the list without changing the tokens |
| Lexer.PointValueParts | parser.py:93-104 | the value `float(w)` of a point decimal lies within one of its signed integer part, on the side of its sign |
| Parser.LowestIndex | parser.py:226-235 | the index is -1 or in range; a non-negative index holds an operator; at -1 the last token of a non-empty slice is a number |
| Parser.LowestIndexSpec | parser.py:226-235 | the index is -1 exactly when the slice has no operator; otherwise it is an operator of minimal priority, and every earlier operator has strictly higher priority |
| Parser.GetLowestPriority | parser.py:226-235 | the loop returns -1 exactly when there is no operator, and otherwise returns the earliest operator of minimal priority, which is `LowestIndex` |
| Parser.LastLowestIndexSpec | parser.py:209-221 | the reference split point is -1 exactly when there is no operator; otherwise it is an operator of minimal priority, and every later operator has strictly higher priority |
| Parser.ReverseSlices | parser.py:201 | cutting the reversed list at the mirror image of position `k` gives the reversed pieces of the list cut at `k`, with the token at `k` between them |
| Parser.LastLowestReversed | parser.py:201 | the last lowest operator of a list is the first lowest operator of its reversal |
| Parser.HasOpReversed | parser.py:201 | reversing a list does not change whether it contains an operator |
| Parser.RecurBuildReversed | parser.py:204-223 | the builder on the reversed list, with its swapped children, equals the direct parse of the list |
| Parser.BuildAstIsParse | parser.py:200-201 | `build_AST` equals the direct parse that splits at the rightmost lowest-priority operator |
| TreeShape.ParseInOrder | parser.py:209-221 | a successful build loses no token and reorders none: the tree read left to right is the input |
| TreeShape.AdjacentAround | parser.py:209-221 | two numbers are adjacent in a list exactly when they are adjacent on one side of an operator |
| TreeShape.ParseErrIff | parser.py:222-223 | the parse fails exactly when two numbers are adjacent |
| TreeShape.CompleteInOrder | parser.py:209-221 | a tree with no missing child reads as a `num (op num)*` list |
| TreeShape.WellFormedHalves | parser.py:209-221 | cutting a `num (op num)*` list at an operator leaves two such lists |
| TreeShape.ParseWellFormed | parser.py:204-221 | a `num (op num)*` list parses with no error and no missing child |
| TreeShape.LeafCountInOrder | parser.py:205-206 | the leaves of a tree are the numbers it reads as |
| TreeShape.ParseErrorKind | parser.py:222-223 | the only build error is "No operator match" |
| TreeShape.BuildAstShape | parser.py:200-223 | `build_AST` fails (with "No operator match") exactly when two numbers are adjacent; on success it keeps every token in order with one leaf per number; it gives a complete tree exactly for `num (op num)*` lists |
| TreeShape.BuildAstSplit | parser.py:209-221 | at the last lowest operator, the tree is that operator over the trees of the tokens to its left and to its right, and it is built exactly when both sides are |
| TreeShape.BuildAstNoOperator | parser.py:205-208 | without an operator: an empty list gives no node, one number gives its literal, and two or more numbers raise "No operator match" |
| TreeShape.OperatorAtEdge | parser.py:205-221 | on the three shortest such lists: `[op]` builds with two missing children, `[a, op]` with a missing right child and `[op, a]` with a missing left child |
| TreeShape.EdgeOperatorIncomplete | parser.py:205-221 | for any token list that starts or ends with an operator, the build either raises or gives a tree with a missing child somewhere |
| TreeShape.ChainLeftAssociative | parser.py:200-221 | a chain of one operator builds as the left-nested tree `((n0 op n1) op n2) …` |
| TreeShape.DivideSplitsBeforeMultiply | parser.py:24-29 | `a / b * c` builds as `a / (b * c)` |
| TreeShape.MinusThenAdd | parser.py:24-29 | `a - b + c` builds as `(a - b) + c` |
| TreeShape.AddThenMinus | parser.py:24-29 | `a + b - c` builds as `a + (b - c)` |
| Evaluator.Trunc | parser.py:93-94 | `int` of a number truncates toward zero |
| Evaluator.TruncBetween | parser.py:93-94 | the integer that a value truncates to is unique |
| Evaluator.Apply | parser.py:55-86 | an operator node fails exactly on division by zero; otherwise its value is the exact sum, difference, product or quotient of its operands, and it is an int exactly when it is not a division and both operands are ints |
| Evaluator.IntLiteral | parser.py:93-94 | an integer leaf evaluates to itself |
| Evaluator.EvalOutcome | parser.py:49-94 | a value is an int exactly when the tree has no division; a tree that evaluates has no missing child; evaluation never raises "No operator match"; a complete tree fails only on division by zero, and a complete tree without division always evaluates |
| Evaluator.ChainValue | parser.py:55-66 | a left-nested chain of `-` is the first number minus the sum of the others, and a chain of `+` is the sum |
| Pipeline.Run | parser.py:237-243 | `main` returns the specification `Evaluate`; it raises "No operator match" exactly when two numbers are adjacent among the tokens; a value comes only from `num (op num)*` tokens, for which the model's only failure is division by zero (the model has no recursion limit, see Left out) |
| Pipeline.SingleNumber | parser.py:237-243 | a single number word evaluates to `int` of its value |
| Pipeline.SingleInteger | parser.py:237-243 | a single integer word evaluates to its own value |
| Pipeline.SingleFloat | parser.py:237-243 | a single float word evaluates to the int made of its sign and the digits before its dot |
| Pipeline.PointDecimalWord | parser.py:100-104 | a signed point decimal is a single whitespace-free word that the integer test rejects, so it becomes a float-kind token of its exact value |
| Pipeline.WordsToTokens | parser.py:184-196 | words joined by spaces tokenize to the words' own tokens, in order |
| Pipeline.IntegerWord | parser.py:100-102 | an integer word is a single whitespace-free word whose token is its value |
| Pipeline.SymbolWord | parser.py:108-119 | an operator symbol is a single word whose token is that operator |
| Pipeline.BinaryTokens | parser.py:200-221 | `m op n` on integer tokens gives the int result for `+ - *`, the exact quotient for `/`, and a division-by-zero error for a zero divisor |
| Pipeline.AdjacentTokens | parser.py:222-223 | two integer tokens with no operator raise "No operator match" |
| Pipeline.DanglingTokens | parser.py:205-208 | an operator with an integer token on one side only fails on its missing part |
| Pipeline.DivideMultiplyTokens | parser.py:24-29 | `m / n * k` is `m / (n * k)`, or a division-by-zero error when `n * k` is zero |
| Pipeline.SubtractTwiceTokens | parser.py:209-221 | `m - n - k` evaluates to `(m - n) - k` |
| Pipeline.BinaryExpression | parser.py:237-243 | `a op b` for integer words gives the int result for `+ - *`, the exact quotient for `/`, and a division-by-zero error for a zero divisor |
| Pipeline.AdjacentIntegers | parser.py:237-243 | two integer words with no operator raise "No operator match" |
| Pipeline.TrailingOperator | parser.py:237-243 | `a op` fails on the missing right operand |
| Pipeline.LeadingOperator | parser.py:237-243 | `op a` fails on the missing left operand |
| Pipeline.FiveWordTokens | parser.py:184-196 | three integer words with two operators between them tokenize to those five tokens |
| Pipeline.DivideThenMultiply | parser.py:237-243 | `a / b * c` evaluates to `a / (b * c)`, or to a division-by-zero error when `b * c` is zero |
| Pipeline.NoTokens | parser.py:237-243 | an input without tokens (empty, blank, or only unrecognised words) fails because there is no tree |
| Pipeline.UnknownWordIgnored | parser.py:192-195 | an unrecognised leading word does not change the result |

## Left out

- The `print("No operator match")` in `is_operator` (parser.py:157) is console output and does not change any result.
- The integer grammar is an optional sign followed by one or more ASCII digits. Python's `int()` also accepts underscores (`1_000`), non-ASCII digits and surrounding whitespace; the model does not.
- The float grammar adds an optionally signed decimal with one dot and at least one digit (`5.`, `.5`, `-2.25`). Exponents (`1e3`), `inf`, `nan` and underscores are not recognised, so the model drops those words where Python would make float tokens of them.
- Float values and true division are exact reals in the model, not IEEE doubles. There is no rounding and no overflow, so the model cannot raise the error `int()` gives for an infinite or NaN value (parser.py:94), nor the `OverflowError` that `/` or mixed float/int arithmetic raises on very large ints (parser.py:56-86).
- `str.split()` is modelled with the ASCII whitespace set: space, `\t`, `\n`, `\v`, `\f`, `\r` and `\x1c`-`\x1f`. The other Unicode whitespace characters Python splits on are treated as ordinary characters.
- The operator classes and `P_Integer` (parser.py:43-94) become the datatype `Ast` with a single function `Eval`. The classes' `priority` fields (parser.py:53, 63, 73, 83) are never read in the source and are not modelled.
- The token predicates `is_operator_tk` and `is_add_tk` … `is_divide_tk` (parser.py:160-177) become the datatype tests `Op?` and a match on the operator.
- Pipeline.SubtractTwiceTokens: this is stated on the token list `m - n - k`. `Pipeline.FiveWordTokens` gives the tokens of the input string, but no single lemma states `a - b - c` for the string itself.
- Parser.RecurBuild: the model has no recursion limit. `recur_build_ast` (parser.py:204-223) calls itself once per operator on a chain of equal-priority operators, so an input such as `1 + 1 + … + 1` with about a thousand operators raises `RecursionError` under the standard Python interpreter, while the model builds the tree.
- Evaluator.Eval: for the same reason, the nested `evaluate` calls (parser.py:55-94) can exceed the interpreter's recursion limit on very deep trees; the model evaluates trees of any depth.
- Pipeline.Run: its contract says that on `num (op num)*` tokens the only failure is division by zero. That holds for the model; the program can also fail there with `RecursionError` on very long chains, as the two lines above say.
- Lexer.IsInt: there is no limit on the number of digits. From Python 3.11 on, `int()` rejects a word of more than 4300 digits with `ValueError`, `is_int` (parser.py:131-136) then returns false, the word becomes a float token of value `inf`, and `int(inf)` at parser.py:94 raises `OverflowError`. The model instead gives such a word its exact integer value, so `Pipeline.SingleInteger` does not hold for the program on such words.
- Evaluating `None` raises `AttributeError` in Python. The model returns the error value `MissingOperand` instead, and models no message text.
