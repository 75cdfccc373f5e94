/** Splitting the input into words and turning each word into at most one token
    (`word_splitter`, `tokenizer`, `num_tk`, `operator_tk` and the `is_*` tests). */
module Lexer {
  import opened Syntax

  // ---------------------------------------------------------------------------
  // Word splitting (`str.split()` with no separator)
  // ---------------------------------------------------------------------------

  /** The ASCII characters that `str.split()` treats as whitespace: space,
      tab, line feed, vertical tab, form feed, carriage return and the four
      separators 0x1C..0x1F. */
  predicate IsSpace(c: char)
  {
    c == ' ' || ('\t' <= c <= '\r') || ('\U{1C}' <= c <= '\U{1F}')
  }

  predicate SpaceFree(w: string)
  {
    forall i :: 0 <= i < |w| ==> !IsSpace(w[i])
  }

  /** `s` without its leading whitespace. */
  function DropSpaces(s: string): (r: string)
    ensures |r| <= |s| && r == s[|s| - |r|..]
    ensures r == [] || !IsSpace(r[0])
  {
    if s != [] && IsSpace(s[0]) then DropSpaces(s[1..]) else s
  }

  /** The longest whitespace-free prefix of `s`. */
  function LeadingWord(s: string): (w: string)
    ensures |w| <= |s| && w == s[..|w|]
    ensures SpaceFree(w)
    ensures |w| < |s| ==> IsSpace(s[|w|])
    ensures s != [] && !IsSpace(s[0]) ==> |w| > 0
  {
    if s == [] || IsSpace(s[0]) then [] else [s[0]] + LeadingWord(s[1..])
  }

  /** `word_splitter`: the maximal runs of non-whitespace characters, in order. */
  function Split(s: string): (ws: seq<string>)
    decreases |s|
  {
    var t := DropSpaces(s);
    if t == [] then []
    else
      var w := LeadingWord(t);
      [w] + Split(t[|w|..])
  }

  /** The characters of `s` that are not whitespace, in order. */
  function NonSpace(s: string): string
  {
    if s == [] then [] else (if IsSpace(s[0]) then [] else [s[0]]) + NonSpace(s[1..])
  }

  function Concat(ws: seq<string>): string
  {
    if ws == [] then [] else ws[0] + Concat(ws[1..])
  }

  /** The words separated by single spaces. */
  function Join(ws: seq<string>): string
  {
    if ws == [] then [] else if |ws| == 1 then ws[0] else ws[0] + " " + Join(ws[1..])
  }

  lemma {:induction false} NonSpaceAppend(a: string, b: string)
    ensures NonSpace(a + b) == NonSpace(a) + NonSpace(b)
    decreases |a|
  {
    if a != [] {
      assert (a + b)[1..] == a[1..] + b;
      NonSpaceAppend(a[1..], b);
    } else {
      assert a + b == b;
    }
  }

  lemma {:induction false} DropSpacesNonSpace(s: string)
    ensures NonSpace(DropSpaces(s)) == NonSpace(s)
    decreases |s|
  {
    if s != [] && IsSpace(s[0]) {
      DropSpacesNonSpace(s[1..]);
    }
  }

  lemma {:induction false} SpaceFreeNonSpace(w: string)
    requires SpaceFree(w)
    ensures NonSpace(w) == w
    decreases |w|
  {
    if w != [] {
      SpaceFreeNonSpace(w[1..]);
    }
  }

  /** Splitting loses no character but the whitespace and keeps the order:
      the words, put back together, are the input's non-whitespace characters. */
  lemma {:induction false} SplitKeepsCharacters(s: string)
    ensures Concat(Split(s)) == NonSpace(s)
    decreases |s|
  {
    var t := DropSpaces(s);
    DropSpacesNonSpace(s);
    if t != [] {
      var rest := t[|LeadingWord(t)|..];
      ConcatSplitStep(s);
      SplitKeepsCharacters(rest);
      NonSpaceWordStep(t);
    }
  }

  /** The words of `s` put together: the first word, then the rest's words. */
  lemma ConcatSplitStep(s: string)
    requires DropSpaces(s) != []
    ensures var t := DropSpaces(s); var w := LeadingWord(t);
      Concat(Split(s)) == w + Concat(Split(t[|w|..]))
  {
    var t := DropSpaces(s);
    var w := LeadingWord(t);
    assert Split(s) == [w] + Split(t[|w|..]);
    ConcatCons(w, Split(t[|w|..]));
  }

  /** The non-whitespace characters of `t`: its leading word, then the rest's. */
  lemma NonSpaceWordStep(t: string)
    ensures var w := LeadingWord(t); NonSpace(t) == w + NonSpace(t[|w|..])
  {
    var w := LeadingWord(t);
    var rest := t[|w|..];
    assert t == w + rest;
    NonSpaceAppend(w, rest);
    SpaceFreeNonSpace(w);
  }

  lemma ConcatCons(w: string, ws: seq<string>)
    ensures Concat([w] + ws) == w + Concat(ws)
  {
    assert ([w] + ws)[1..] == ws;
  }

  lemma {:induction false} LeadingWordAppend(w: string, rest: string)
    requires SpaceFree(w)
    requires rest == [] || IsSpace(rest[0])
    ensures LeadingWord(w + rest) == w
    decreases |w|
  {
    if w == [] {
      assert w + rest == rest;
    } else {
      assert (w + rest)[1..] == w[1..] + rest;
      LeadingWordAppend(w[1..], rest);
    }
  }

  /** Every word is non-empty and free of whitespace. */
  lemma {:induction false} SplitWords(s: string)
    ensures forall i :: 0 <= i < |Split(s)| ==> Split(s)[i] != [] && SpaceFree(Split(s)[i])
    decreases |s|
  {
    var t := DropSpaces(s);
    if t != [] {
      var w := LeadingWord(t);
      var rest := t[|w|..];
      var ws := Split(s);
      SplitWords(rest);
      assert ws == [w] + Split(rest);
      forall i | 0 <= i < |ws|
        ensures ws[i] != [] && SpaceFree(ws[i])
      {
        if i > 0 {
          assert ws[i] == Split(rest)[i - 1];
        }
      }
    }
  }

  /** A non-empty, whitespace-free word followed by a space splits off as the first word. */
  lemma SplitCons(w: string, x: string)
    requires w != [] && SpaceFree(w)
    ensures Split(w + " " + x) == [w] + Split(x)
  {
    var rest := " " + x;
    assert w + " " + x == w + rest;
    SplitAppend(w, rest);
    SplitWord(w);
    assert rest[1..] == x;
    SplitLeadingSpace(rest);
  }

  /** A single non-empty, whitespace-free word splits into itself. */
  lemma SplitWord(w: string)
    requires w != [] && SpaceFree(w)
    ensures Split(w) == [w]
  {
    assert w + [] == w;
    LeadingWordAppend(w, []);
    assert DropSpaces(w) == w;
    assert w[|w|..] == [];
  }

  lemma HeadTail<T>(s: seq<T>)
    requires s != []
    ensures [s[0]] + s[1..] == s
  {
  }

  /** Joining non-empty, whitespace-free words by single spaces and splitting
      the result gives the words back. */
  lemma {:induction false} SplitJoin(ws: seq<string>)
    requires forall i :: 0 <= i < |ws| ==> ws[i] != [] && SpaceFree(ws[i])
    ensures Split(Join(ws)) == ws
    decreases |ws|
  {
    if |ws| == 1 {
      SplitWord(ws[0]);
    } else if |ws| > 1 {
      var tail := ws[1..];
      forall i | 0 <= i < |tail|
        ensures tail[i] != [] && SpaceFree(tail[i])
      {
        assert tail[i] == ws[i + 1];
      }
      var jt := Join(tail);
      SplitJoin(tail);
      SplitCons(ws[0], jt);
      calc {
        Split(Join(ws));
        { assert Join(ws) == ws[0] + " " + jt; }
        Split(ws[0] + " " + jt);
        [ws[0]] + Split(jt);
        [ws[0]] + tail;
        { HeadTail(ws); }
        ws;
      }
    }
  }

  // ---------------------------------------------------------------------------
  // Numeric words (a decimal subset of Python's `int()` and `float()` syntax)
  // ---------------------------------------------------------------------------

  predicate IsDigit(c: char)
  {
    '0' <= c <= '9'
  }

  /** A word that runs into whitespace inside `a` ends there, whatever follows `a`. */
  lemma {:induction false} LeadingWordInside(a: string, b: string)
    requires !SpaceFree(a)
    ensures LeadingWord(a + b) == LeadingWord(a)
    decreases |a|
  {
    if !IsSpace(a[0]) {
      assert (a + b)[1..] == a[1..] + b;
      assert !SpaceFree(a[1..]) by {
        var i :| 0 <= i < |a| && IsSpace(a[i]);
        assert a[1..][i - 1] == a[i];
      }
      LeadingWordInside(a[1..], b);
    }
  }

  /** Leading whitespace does not change the words. */
  lemma SplitLeadingSpace(s: string)
    requires s != [] && IsSpace(s[0])
    ensures Split(s) == Split(s[1..])
  {
    assert DropSpaces(s) == DropSpaces(s[1..]);
  }

  /** The first word of `a + b` is the first word of `a` when the two meet at
      whitespace. */
  lemma LeadingWordMeet(a: string, b: string)
    requires a != [] && (b == [] || IsSpace(a[|a| - 1]) || IsSpace(b[0]))
    ensures LeadingWord(a + b) == LeadingWord(a)
  {
    if SpaceFree(a) {
      assert !IsSpace(a[|a| - 1]);
      LeadingWordAppend(a, []);
      assert a + [] == a;
      if b == [] {
        assert a + b == a;
      } else {
        LeadingWordAppend(a, b);
      }
    } else {
      LeadingWordInside(a, b);
    }
  }

  /** Input that starts with a word: that word, then the words of the rest. */
  lemma SplitFirstWord(s: string)
    requires s != [] && !IsSpace(s[0])
    ensures Split(s) == [LeadingWord(s)] + Split(s[|LeadingWord(s)|..])
  {
    assert DropSpaces(s) == s;
  }

  /** Splitting two pieces that meet at whitespace splits each on its own:
      word boundaries are fixed by whitespace alone, so runs of spaces, tabs
      and blanks at either end cost nothing. */
  lemma {:induction false} SplitAppend(a: string, b: string)
    requires a == [] || b == [] || IsSpace(a[|a| - 1]) || IsSpace(b[0])
    ensures Split(a + b) == Split(a) + Split(b)
    decreases |a|
  {
    if a == [] {
      assert a + b == b;
    } else if IsSpace(a[0]) {
      var tail := a[1..];
      assert tail != [] ==> tail[|tail| - 1] == a[|a| - 1];
      SplitAppend(tail, b);
      SplitAppendSpace(a, b);
      SplitLeadingSpace(a);
    } else {
      var w := LeadingWord(a);
      var rest := a[|w|..];
      assert rest != [] ==> rest[|rest| - 1] == a[|a| - 1];
      SplitAppend(rest, b);
      SplitAppendWord(a, b);
      SplitFirstWord(a);
      AppendAssoc([w], Split(rest), Split(b));
    }
  }

  lemma AppendAssoc<T>(x: seq<T>, y: seq<T>, z: seq<T>)
    ensures x + (y + z) == (x + y) + z
  {
  }

  /** Whitespace at the front of the first piece is dropped. */
  lemma SplitAppendSpace(a: string, b: string)
    requires a != [] && IsSpace(a[0])
    ensures Split(a + b) == Split(a[1..] + b)
  {
    var ab := a + b;
    assert ab[1..] == a[1..] + b;
    SplitLeadingSpace(a);
    assert ab[0] == a[0];
    SplitLeadingSpace(ab);
  }

  /** The first word of the first piece comes first. */
  lemma SplitAppendWord(a: string, b: string)
    requires a != [] && !IsSpace(a[0])
    requires b == [] || IsSpace(a[|a| - 1]) || IsSpace(b[0])
    ensures var w := LeadingWord(a); Split(a + b) == [w] + Split(a[|w|..] + b)
  {
    var w := LeadingWord(a);
    var ab := a + b;
    LeadingWordMeet(a, b);
    assert ab[0] == a[0];
    SplitFirstWord(ab);
    DropAppend(a, b, |w|);
  }

  lemma DropAppend<T>(x: seq<T>, y: seq<T>, k: nat)
    requires k <= |x|
    ensures (x + y)[k..] == x[k..] + y
  {
  }

  predicate AllDigits(s: string)
  {
    forall i :: 0 <= i < |s| ==> IsDigit(s[i])
  }

  predicate HasSign(w: string)
  {
    |w| > 0 && (w[0] == '+' || w[0] == '-')
  }

  /** The word without its optional leading sign. */
  function Unsigned(w: string): string
  {
    if HasSign(w) then w[1..] else w
  }

  /** The sign an optional leading `-` or `+` gives. */
  function SignOf(w: string): int
  {
    if |w| > 0 && w[0] == '-' then -1 else 1
  }

  /** `is_int`: an optional sign followed by one or more decimal digits. */
  predicate IsInt(w: string)
  {
    var d := Unsigned(w);
    |d| > 0 && AllDigits(d)
  }

  /** The value of a (possibly empty) digit string; the empty one is 0. */
  function DigitsValue(d: string): (n: nat)
    requires AllDigits(d)
  {
    if d == [] then 0
    else DigitsValue(d[..|d| - 1]) * 10 + ((d[|d| - 1] as int) - ('0' as int))
  }

  function Pow10(k: nat): (p: nat)
    ensures p > 0
  {
    if k == 0 then 1 else 10 * Pow10(k - 1)
  }

  /** A digit string of length k is below 10^k. */
  lemma {:induction false} DigitsValueBound(d: string)
    requires AllDigits(d)
    ensures DigitsValue(d) < Pow10(|d|)
    decreases |d|
  {
    if d != [] {
      DigitsValueBound(d[..|d| - 1]);
    }
  }

  /** `int(w)` for a word that is an integer. */
  function IntValue(w: string): int
    requires IsInt(w)
  {
    SignOf(w) * DigitsValue(Unsigned(w))
  }

  /** Index of the first `.` in `s`, or `|s|` when there is none. */
  function DotIndex(s: string): (k: nat)
    ensures k <= |s|
    ensures k < |s| ==> s[k] == '.'
    ensures forall j :: 0 <= j < k ==> s[j] != '.'
  {
    if s == [] || s[0] == '.' then 0 else 1 + DotIndex(s[1..])
  }

  /** Digits, one dot and digits, with at least one digit in all: `5.`, `.5`, `5.25`. */
  predicate IsPointDecimal(d: string)
  {
    var k := DotIndex(d);
    k < |d| && |d| >= 2 && AllDigits(d[..k]) && AllDigits(d[k + 1..])
  }

  /** `is_float`: every integer word, and an optionally signed point decimal. */
  predicate IsFloat(w: string)
  {
    IsInt(w) || IsPointDecimal(Unsigned(w))
  }

  /** `float(w)` for a point-decimal word, as an exact real. */
  function PointValue(w: string): real
    requires IsPointDecimal(Unsigned(w))
  {
    var d := Unsigned(w);
    var k := DotIndex(d);
    (SignOf(w) as real) * ((DigitsValue(d[..k]) as real) + (DigitsValue(d[k + 1..]) as real) / (Pow10(|d| - k - 1) as real))
  }

  /** `is_number`: the integer test, then the float test. */
  predicate IsNumber(w: string)
  {
    IsInt(w) || IsFloat(w)
  }

  /** `is_operator`: exactly one of the four operator words. */
  predicate IsOperator(w: string)
  {
    w == "+" || w == "-" || w == "*" || w == "/"
  }

  /** `num_tk`: integer classification is tried before float classification,
      so an integer word always gives an integer token of its value. */
  function NumTk(w: string): (t: Option<Token>)
    ensures t.Some? <==> IsNumber(w)
    ensures t.Some? ==> t.value.Num?
    ensures IsInt(w) ==> t == Some(Num(IntKind, IntValue(w) as real))
    ensures t.Some? && t.value.kind == FloatKind ==> !IsInt(w)
  {
    if IsInt(w) then Some(Num(IntKind, IntValue(w) as real))
    else if IsFloat(w) then Some(Num(FloatKind, PointValue(w)))
    else None
  }

  /** `operator_tk`. */
  function OperatorTk(w: string): Option<Token>
  {
    if w == "+" then Some(Op(Add))
    else if w == "-" then Some(Op(Minus))
    else if w == "*" then Some(Op(Multiply))
    else if w == "/" then Some(Op(Divide))
    else None
  }

  /** The token, if any, that the tokenizer's loop body emits for one word. */
  function TokenOf(w: string): Option<Token>
  {
    if IsNumber(w) then NumTk(w)
    else if IsOperator(w) then OperatorTk(w)
    else None
  }

  /** `operator_tk` and `Symbol` are inverse: the recognised operator words
      are exactly the four symbols, each giving its own operator. */
  lemma OperatorTkSymbol(w: string, op: BinOp)
    ensures OperatorTk(w) == Some(Op(op)) <==> w == Symbol(op)
    ensures OperatorTk(w).Some? <==> IsOperator(w)
  {
  }

  /** No operator word is numeric (neither `int("-")` nor `float("-")` succeeds),
      so each operator word becomes its operator token; and a word that is
      neither numeric nor an operator contributes nothing. */
  lemma TokenOfClassification(w: string)
    ensures IsOperator(w) ==> !IsNumber(w)
    ensures forall op :: w == Symbol(op) ==> TokenOf(w) == Some(Op(op))
    ensures TokenOf(w).Some? <==> IsNumber(w) || IsOperator(w)
    ensures IsInt(w) ==> TokenOf(w) == Some(Num(IntKind, IntValue(w) as real))
  {
    if IsOperator(w) {
      assert w == "+" || w == "-" || w == "*" || w == "/";
      assert !IsInt(w) && !IsPointDecimal(Unsigned(w));
    }
  }

  // ---------------------------------------------------------------------------
  // Tokenizer
  // ---------------------------------------------------------------------------

  function Emit(t: Option<Token>): seq<Token>
  {
    if t.Some? then [t.value] else []
  }

  /** The token list produced for `ws`: the tokens of the words, in order. */
  function Tokens(ws: seq<string>): seq<Token>
  {
    if ws == [] then [] else Tokens(ws[..|ws| - 1]) + Emit(TokenOf(ws[|ws| - 1]))
  }

  /** `tokenizer`: one pass over the words, appending each word's token. */
  method Tokenize(inputList: seq<string>) returns (tokenList: seq<Token>)
    ensures tokenList == Tokens(inputList)
    ensures |tokenList| <= |inputList|
  {
    tokenList := [];
    for i := 0 to |inputList|
      invariant tokenList == Tokens(inputList[..i])
      invariant |tokenList| <= i
    {
      var item := inputList[i];
      TokensStep(inputList, i);
      if IsNumber(item) {
        tokenList := tokenList + [NumTk(item).value];
      } else if IsOperator(item) {
        tokenList := tokenList + [OperatorTk(item).value];
      }
    }
    assert inputList[..|inputList|] == inputList;
  }

  /** One more word appends that word's token, if any. */
  lemma TokensStep(ws: seq<string>, i: int)
    requires 0 <= i < |ws|
    ensures Tokens(ws[..i + 1]) == Tokens(ws[..i]) + Emit(TokenOf(ws[i]))
  {
    assert ws[..i + 1][..i] == ws[..i];
  }

  /** Order preservation: tokenizing a concatenation of word lists
      concatenates their token lists. */
  lemma {:induction false} TokensAppend(a: seq<string>, b: seq<string>)
    ensures Tokens(a + b) == Tokens(a) + Tokens(b)
    decreases |b|
  {
    if b == [] {
      assert a + b == a;
    } else {
      var n := |b| - 1;
      assert (a + b)[..|a + b| - 1] == a + b[..n];
      TokensAppend(a, b[..n]);
    }
  }

  /** Each word yields at most one token, so there are never more tokens than words. */
  lemma {:induction false} TokensLength(ws: seq<string>)
    ensures |Tokens(ws)| <= |ws|
    decreases |ws|
  {
    if ws != [] {
      TokensLength(ws[..|ws| - 1]);
    }
  }

  /** Tokenizing a single word. */
  lemma TokensOfWord(w: string)
    ensures Tokens([w]) == Emit(TokenOf(w))
  {
    assert [w][..0] == [];
  }

  /** A word that is neither numeric nor an operator vanishes without a trace:
      dropping it from anywhere in the word list leaves the tokens unchanged. */
  lemma UnrecognisedWordVanishes(a: seq<string>, w: string, b: seq<string>)
    requires !IsNumber(w) && !IsOperator(w)
    ensures Tokens(a + [w] + b) == Tokens(a + b)
  {
    TokensAppend(a + [w], b);
    TokensAppend(a, [w]);
    TokensOfWord(w);
    TokensAppend(a, b);
  }

  /** int() of a point decimal: the fraction is below one, so truncating the
      value toward zero leaves the signed integer part. */
  lemma PointValueParts(w: string)
    requires IsPointDecimal(Unsigned(w))
    ensures var d := Unsigned(w); var k := DotIndex(d);
            var ip := DigitsValue(d[..k]) as real;
            var x := PointValue(w);
            (SignOf(w) == 1 ==> ip <= x < ip + 1.0) && (SignOf(w) == -1 ==> -ip - 1.0 < x <= -ip)
  {
    var d := Unsigned(w);
    var k := DotIndex(d);
    var f := d[k + 1..];
    DigitsValueBound(f);
    assert |f| == |d| - k - 1;
    FractionBelowOne(DigitsValue(f), Pow10(|f|));
  }

  lemma FractionBelowOne(a: nat, b: nat)
    requires a < b
    ensures 0.0 <= (a as real) / (b as real) < 1.0
  {
    var q := (a as real) / (b as real);
    assert q * (b as real) == a as real;
  }
}
