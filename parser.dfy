/** Building the syntax tree from the token list (`build_AST`,
    `recur_build_ast`, `get_lowest_priority`), and a direct left-to-right
    description of the same tree. */
module Parser {
  import opened Syntax

  // ---------------------------------------------------------------------------
  // Where the lowest-priority operator is
  // ---------------------------------------------------------------------------

  predicate HasOp(ts: seq<Token>)
  {
    exists i :: 0 <= i < |ts| && ts[i].Op?
  }

  /** Position `k` holds an operator whose priority is minimal among the operators of `ts`. */
  predicate IsLowestOp(ts: seq<Token>, k: int)
  {
    0 <= k < |ts| && ts[k].Op? &&
    forall j :: 0 <= j < |ts| && ts[j].Op? ==> Priority(ts[k].op) <= Priority(ts[j].op)
  }

  /** ... and every operator before it has a strictly higher priority. */
  predicate IsFirstLowestOp(ts: seq<Token>, k: int)
  {
    IsLowestOp(ts, k) &&
    forall j :: 0 <= j < k && ts[j].Op? ==> Priority(ts[k].op) < Priority(ts[j].op)
  }

  /** ... and every operator after it has a strictly higher priority. */
  predicate IsLastLowestOp(ts: seq<Token>, k: int)
  {
    IsLowestOp(ts, k) &&
    forall j :: k < j < |ts| && ts[j].Op? ==> Priority(ts[k].op) < Priority(ts[j].op)
  }

  /** The earliest operator of lowest priority, or -1 when there is no
      operator; defined from the right end, keeping the left one on ties. */
  function LowestIndex(ts: seq<Token>): (k: int)
    ensures -1 <= k < |ts|
    ensures k >= 0 ==> ts[k].Op?
    ensures k == -1 && ts != [] ==> ts[|ts| - 1].Num?
  {
    if ts == [] then -1
    else
      var r := LowestIndex(ts[1..]);
      if ts[0].Op? && (r < 0 || Priority(ts[0].op) <= Priority(ts[r + 1].op)) then 0
      else if r < 0 then -1
      else r + 1
  }

  /** The latest operator of lowest priority, or -1 when there is no operator. */
  function LastLowestIndex(ts: seq<Token>): (k: int)
    ensures -1 <= k < |ts|
    ensures k >= 0 ==> ts[k].Op?
  {
    if ts == [] then -1
    else
      var n := |ts| - 1;
      var r := LastLowestIndex(ts[..n]);
      if ts[n].Op? && (r < 0 || Priority(ts[n].op) <= Priority(ts[r].op)) then n
      else r
  }

  lemma {:induction false} LowestIndexSpec(ts: seq<Token>)
    ensures LowestIndex(ts) == -1 <==> !HasOp(ts)
    ensures HasOp(ts) ==> IsFirstLowestOp(ts, LowestIndex(ts))
    decreases |ts|
  {
    if ts != [] {
      var rest := ts[1..];
      var r := LowestIndex(rest);
      LowestIndexSpec(rest);
      var k := LowestIndex(ts);
      forall j | 1 <= j < |ts|
        ensures ts[j] == rest[j - 1]
      {
      }
      if k == 0 {
        forall j | 0 <= j < |ts| && ts[j].Op?
          ensures Priority(ts[0].op) <= Priority(ts[j].op)
        {
          if j > 0 {
            assert rest[j - 1].Op?;
          }
        }
      } else if k == -1 {
        forall j | 0 <= j < |ts|
          ensures !ts[j].Op?
        {
          if j > 0 {
            assert !rest[j - 1].Op?;
          }
        }
      } else {
        assert k == r + 1;
        forall j | 0 <= j < |ts| && ts[j].Op?
          ensures Priority(ts[k].op) <= Priority(ts[j].op)
        {
          if j > 0 {
            assert rest[j - 1].Op?;
          }
        }
        assert ts[k] == rest[r];
      }
    }
  }

  lemma {:induction false} LastLowestIndexSpec(ts: seq<Token>)
    ensures LastLowestIndex(ts) == -1 <==> !HasOp(ts)
    ensures HasOp(ts) ==> IsLastLowestOp(ts, LastLowestIndex(ts))
    decreases |ts|
  {
    if ts != [] {
      var n := |ts| - 1;
      var init := ts[..n];
      var r := LastLowestIndex(init);
      LastLowestIndexSpec(init);
      var k := LastLowestIndex(ts);
      forall j | 0 <= j < n
        ensures ts[j] == init[j]
      {
      }
      if k == n {
        forall j | 0 <= j < |ts| && ts[j].Op?
          ensures Priority(ts[n].op) <= Priority(ts[j].op)
        {
          if j < n {
            assert init[j].Op?;
          }
        }
      } else if k == -1 {
        forall j | 0 <= j < |ts|
          ensures !ts[j].Op?
        {
          if j < n {
            assert !init[j].Op?;
          }
        }
      } else {
        assert k == r;
        forall j | 0 <= j < |ts| && ts[j].Op?
          ensures Priority(ts[k].op) <= Priority(ts[j].op)
        {
          if j < n {
            assert init[j].Op?;
          }
        }
      }
    }
  }

  /** The earliest lowest operator is unique. */
  lemma FirstLowestUnique(ts: seq<Token>, a: int, b: int)
    requires IsFirstLowestOp(ts, a) && IsFirstLowestOp(ts, b)
    ensures a == b
  {
  }

  /** `get_lowest_priority`: a left-to-right scan that moves to a new operator
      only when its priority is strictly below the best so far (which starts
      at 100).  It finds the earliest operator of lowest priority, and -1
      exactly when there is no operator. */
  method GetLowestPriority(tokenList: seq<Token>) returns (maxIndex: int)
    ensures maxIndex == -1 <==> !HasOp(tokenList)
    ensures maxIndex != -1 ==> IsFirstLowestOp(tokenList, maxIndex)
    ensures maxIndex == LowestIndex(tokenList)
  {
    var curMax := 100;
    maxIndex := -1;
    for index := 0 to |tokenList|
      invariant -1 <= maxIndex < index || (maxIndex == -1 && index == 0)
      invariant maxIndex == -1 <==> !HasOp(tokenList[..index])
      invariant maxIndex == -1 ==> curMax == 100
      invariant maxIndex != -1 ==> IsFirstLowestOp(tokenList[..index], maxIndex) && curMax == Priority(tokenList[maxIndex].op)
    {
      ghost var seen := tokenList[..index + 1];
      assert forall j :: 0 <= j < index ==> seen[j] == tokenList[..index][j];
      if tokenList[index].Op? {
        var curPriority := Priority(tokenList[index].op);
        if curPriority < curMax {
          curMax := curPriority;
          maxIndex := index;
        }
      }
      assert seen[index] == tokenList[index];
    }
    assert tokenList[..|tokenList|] == tokenList;
    LowestIndexSpec(tokenList);
    if maxIndex != -1 {
      FirstLowestUnique(tokenList, maxIndex, LowestIndex(tokenList));
    }
  }

  // ---------------------------------------------------------------------------
  // The builder as written: reverse once, then split recursively
  // ---------------------------------------------------------------------------

  function Reverse<T>(s: seq<T>): (r: seq<T>)
    ensures |r| == |s|
  {
    if s == [] then [] else Reverse(s[1..]) + [s[0]]
  }

  /** `recur_build_ast`.  A single number becomes a literal; an empty slice
      gives no node (the loop over the slice never runs); otherwise the slice
      is split at `get_lowest_priority`'s index, the tokens AFTER it forming
      the left part and the tokens BEFORE it the right part.  When there is
      no operator the index is -1, which reads the last token; that token is
      then a number, and "No operator match" is raised. */
  function RecurBuild(tokenList: seq<Token>): Result<Ast>
    decreases |tokenList|
  {
    if |tokenList| == 1 && tokenList[0].Num? then
      Ok(Lit(tokenList[0].kind, tokenList[0].value))
    else if tokenList == [] then
      Ok(Absent)
    else
      var lowest := LowestIndex(tokenList);
      var token := tokenList[if lowest < 0 then |tokenList| + lowest else lowest];
      if !token.Op? then
        Err(NoOperatorMatch)
      else
        // with no operator the token read is the last one, a number, so here lowest >= 0
        var left :- RecurBuild(tokenList[lowest + 1..]);
        var right :- RecurBuild(tokenList[..lowest]);
        Ok(Bin(token.op, left, right))
  }

  /** `build_AST`: the builder applied to the reversed token list. */
  function BuildAst(tokenList: seq<Token>): Result<Ast>
  {
    RecurBuild(Reverse(tokenList))
  }

  // ---------------------------------------------------------------------------
  // The same tree, described left to right
  // ---------------------------------------------------------------------------

  /** Split at the LAST operator of lowest priority, with the tokens left of
      it forming the left child and the tokens right of it the right child. */
  function Parse(ts: seq<Token>): Result<Ast>
    decreases |ts|
  {
    if |ts| == 1 && ts[0].Num? then
      Ok(Lit(ts[0].kind, ts[0].value))
    else if ts == [] then
      Ok(Absent)
    else
      var k := LastLowestIndex(ts);
      if k < 0 then
        Err(NoOperatorMatch)
      else
        var left :- Parse(ts[..k]);
        var right :- Parse(ts[k + 1..]);
        Ok(Bin(ts[k].op, left, right))
  }

  lemma {:induction false} ReverseAt<T>(s: seq<T>)
    ensures |Reverse(s)| == |s|
    ensures forall i :: 0 <= i < |s| ==> Reverse(s)[i] == s[|s| - 1 - i]
    decreases |s|
  {
    if s != [] {
      ReverseAt(s[1..]);
    }
  }

  /** Cutting the reversed list matches reversing the cut pieces. */
  lemma ReverseSlices<T>(s: seq<T>, k: int)
    requires 0 <= k < |s|
    ensures Reverse(s)[|s| - k..] == Reverse(s[..k])
    ensures Reverse(s)[..|s| - 1 - k] == Reverse(s[k + 1..])
    ensures Reverse(s)[|s| - 1 - k] == s[k]
  {
    ReverseAt(s);
    ReverseFront(s, k);
    ReverseBack(s, k);
  }

  lemma ReverseFront<T>(s: seq<T>, k: int)
    requires 0 <= k < |s|
    ensures Reverse(s)[|s| - k..] == Reverse(s[..k])
  {
    var rs, a := Reverse(s), s[..k];
    var ra := Reverse(a);
    ReverseAt(s);
    ReverseAt(a);
    forall i | 0 <= i < k
      ensures rs[|s| - k..][i] == ra[i]
    {
      assert rs[|s| - k + i] == s[k - 1 - i];
      assert ra[i] == a[k - 1 - i];
    }
  }

  lemma ReverseBack<T>(s: seq<T>, k: int)
    requires 0 <= k < |s|
    ensures Reverse(s)[..|s| - 1 - k] == Reverse(s[k + 1..])
  {
    var rs, b := Reverse(s), s[k + 1..];
    var rb := Reverse(b);
    ReverseAt(s);
    ReverseAt(b);
    forall i | 0 <= i < |s| - 1 - k
      ensures rs[..|s| - 1 - k][i] == rb[i]
    {
      assert rs[i] == s[|s| - 1 - i];
      assert rb[i] == b[|b| - 1 - i];
    }
  }

  /** The latest lowest operator of a list is the earliest lowest operator of its reversal. */
  lemma LastLowestReversed(ts: seq<Token>, k: int)
    requires IsLastLowestOp(ts, k)
    ensures IsFirstLowestOp(Reverse(ts), |ts| - 1 - k)
  {
    ReverseAt(ts);
    var rs := Reverse(ts);
    var m := |ts| - 1 - k;
    assert rs[m] == ts[k];
    forall j | 0 <= j < |rs| && rs[j].Op?
      ensures Priority(rs[m].op) <= Priority(rs[j].op)
    {
      assert rs[j] == ts[|ts| - 1 - j];
    }
    forall j | 0 <= j < m && rs[j].Op?
      ensures Priority(rs[m].op) < Priority(rs[j].op)
    {
      assert rs[j] == ts[|ts| - 1 - j];
    }
  }

  lemma HasOpReversed(ts: seq<Token>)
    ensures HasOp(Reverse(ts)) <==> HasOp(ts)
  {
    ReverseAt(ts);
    var rs := Reverse(ts);
    if HasOp(ts) {
      var i :| 0 <= i < |ts| && ts[i].Op?;
      assert rs[|ts| - 1 - i] == ts[i];
    }
    if HasOp(rs) {
      var i :| 0 <= i < |rs| && rs[i].Op?;
      assert rs[i] == ts[|ts| - 1 - i];
    }
  }

  /** The reversal and the swapped children cancel: building from the reversed
      list is the direct left-to-right parse. */
  lemma {:induction false} RecurBuildReversed(ts: seq<Token>)
    ensures RecurBuild(Reverse(ts)) == Parse(ts)
    decreases |ts|
  {
    var rs := Reverse(ts);
    ReverseAt(ts);
    if |ts| == 1 {
      assert rs == ts;
    } else if ts != [] {
      LowestIndexSpec(rs);
      LastLowestIndexSpec(ts);
      HasOpReversed(ts);
      var k := LastLowestIndex(ts);
      if k < 0 {
        assert rs[|rs| - 1] == ts[0];
      } else {
        var m := |ts| - 1 - k;
        LastLowestReversed(ts, k);
        FirstLowestUnique(rs, m, LowestIndex(rs));
        ReverseSlices(ts, k);
        RecurBuildReversed(ts[..k]);
        RecurBuildReversed(ts[k + 1..]);
        assert rs[m + 1..] == Reverse(ts[..k]);
      }
    }
  }

  /** `build_AST` splits at the rightmost lowest-priority operator of the
      list as given. */
  lemma BuildAstIsParse(ts: seq<Token>)
    ensures BuildAst(ts) == Parse(ts)
  {
    RecurBuildReversed(ts);
  }
}
