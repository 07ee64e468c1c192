/** DataStructure/Backtracking/GenerateParentheses.java: all balanced
    strings of `n` pairs of parentheses, built by adding `(` while fewer
    than `n` are open and `)` while some are unclosed. */
module GenerateParentheses {
  import opened Common

  /** Occurrences of `c` in `s`. */
  function Count(s: string, c: char): (k: nat)
    ensures k <= |s|
  {
    if s == [] then 0 else Count(s[..|s| - 1], c) + (if s[|s| - 1] == c then 1 else 0)
  }

  lemma CountAppend(s: string, x: char, c: char)
    ensures Count(s + [x], c) == Count(s, c) + (if x == c then 1 else 0)
  {
    assert (s + [x])[..|s|] == s;
  }

  /** Neither `t` nor any prefix of it closes more parentheses than it
      opens. */
  predicate PrefixesBalanced(t: string)
  {
    Count(t, ')') <= Count(t, '(') && (t == [] || PrefixesBalanced(t[..|t| - 1]))
  }

  /** `PrefixesBalanced` says what it should about every prefix. */
  lemma {:induction false} PrefixesBalancedIff(t: string)
    ensures PrefixesBalanced(t) <==>
            forall k :: 0 <= k <= |t| ==> Count(t[..k], ')') <= Count(t[..k], '(')
  {
    assert t[..|t|] == t;
    if t != [] {
      var u := t[..|t| - 1];
      PrefixesBalancedIff(u);
      assert forall k :: 0 <= k <= |u| ==> u[..k] == t[..k];
    }
  }

  /** A balanced string of `n` pairs. */
  predicate WellFormed(t: string, n: int)
  {
    |t| == 2 * n && Count(t, '(') == n && Count(t, ')') == n && PrefixesBalanced(t)
  }

  /** The shape of a `backtrack` call: `current` holds `open + close`
      characters, `0 <= close <= open <= n` (or nothing at all when `n` is
      negative). */
  predicate Bounds(n: int, cur: string, open: nat, close: nat)
  {
    |cur| == open + close && close <= open && (open <= n || open == 0)
  }

  /** `current` has `open` opening and `close` closing parentheses, and
      no prefix of it is unbalanced. */
  predicate Counted(cur: string, open: nat, close: nat)
  {
    Count(cur, '(') == open && Count(cur, ')') == close && PrefixesBalanced(cur)
  }

  /** `2n - open - close`, which every recursive call decreases. */
  function Measure(n: int, open: nat, close: nat): int
  {
    2 * n - open - close
  }

  /** The strings that `backtrack(current, open, close, n, result)` adds
      to `result`, in order. */
  function Gen(n: int, cur: string, open: nat, close: nat): seq<string>
    requires Bounds(n, cur, open, close)
    decreases if n < 0 then 0 else Measure(n, open, close)
  {
    if |cur| == 2 * n then [cur]
    else
      (if open < n then Gen(n, cur + "(", open + 1, close) else []) +
      (if close < open then Gen(n, cur + ")", open, close + 1) else [])
  }

  /** Adding `(` keeps the counts right. */
  lemma OpenStep(cur: string, open: nat, close: nat)
    requires Counted(cur, open, close) && close <= open
    ensures Counted(cur + "(", open + 1, close)
  {
    CountAppend(cur, '(', '(');
    CountAppend(cur, '(', ')');
    PrefixesAppend(cur, '(');
  }

  /** Adding `)` while some are unclosed keeps the counts right and every
      prefix balanced. */
  lemma CloseStep(cur: string, open: nat, close: nat)
    requires Counted(cur, open, close) && close < open
    ensures Counted(cur + ")", open, close + 1)
  {
    CountAppend(cur, ')', '(');
    CountAppend(cur, ')', ')');
    PrefixesAppend(cur, ')');
  }

  lemma PrefixesAppend(t: string, x: char)
    requires PrefixesBalanced(t) && Count(t + [x], ')') <= Count(t + [x], '(')
    ensures PrefixesBalanced(t + [x])
  {
    assert (t + [x])[..|t|] == t;
  }

  /** Every generated string extends `cur` and has length `2n`. */
  lemma {:induction false} GenExtends(n: int, cur: string, open: nat, close: nat)
    requires Bounds(n, cur, open, close)
    ensures forall r :: r in Gen(n, cur, open, close) ==> cur <= r && |r| == 2 * n
    decreases if n < 0 then 0 else Measure(n, open, close)
  {
    if |cur| != 2 * n {
      if open < n {
        GenExtends(n, cur + "(", open + 1, close);
      }
      if close < open {
        GenExtends(n, cur + ")", open, close + 1);
      }
    }
  }

  /** Soundness: every generated string is a balanced string of `n`
      pairs. */
  lemma {:induction false} GenSound(n: int, cur: string, open: nat, close: nat)
    requires Bounds(n, cur, open, close) && Counted(cur, open, close)
    ensures forall r :: r in Gen(n, cur, open, close) ==> WellFormed(r, n)
    decreases if n < 0 then 0 else Measure(n, open, close)
  {
    if |cur| != 2 * n {
      if open < n {
        OpenStep(cur, open, close);
        GenSound(n, cur + "(", open + 1, close);
      }
      if close < open {
        CloseStep(cur, open, close);
        GenSound(n, cur + ")", open, close + 1);
      }
    }
  }

  /** The two branches never produce the same string: they differ right
      after `cur`. */
  lemma {:induction false} GenDistinct(n: int, cur: string, open: nat, close: nat)
    requires Bounds(n, cur, open, close)
    ensures NoDuplicates(Gen(n, cur, open, close))
    decreases if n < 0 then 0 else Measure(n, open, close), 0
  {
    if |cur| != 2 * n {
      var left := if open < n then Gen(n, cur + "(", open + 1, close) else [];
      var right := if close < open then Gen(n, cur + ")", open, close + 1) else [];
      if open < n {
        Branch(n, cur + "(", open + 1, close);
      }
      if close < open {
        Branch(n, cur + ")", open, close + 1);
      }
      BranchesDiffer(cur, left, right);
      NoDuplicatesAppend(left, right);
    }
  }

  /** One branch of the search: distinct strings, all extending `next`. */
  lemma {:induction false} Branch(n: int, next: string, open: nat, close: nat)
    requires Bounds(n, next, open, close)
    ensures NoDuplicates(Gen(n, next, open, close))
    ensures forall r :: r in Gen(n, next, open, close) ==> next <= r
    decreases if n < 0 then 0 else Measure(n, open, close), 1
  {
    GenDistinct(n, next, open, close);
    GenExtends(n, next, open, close);
  }

  /** Strings extending `cur + "("` and strings extending `cur + ")"`
      are different. */
  lemma BranchesDiffer(cur: string, left: seq<string>, right: seq<string>)
    requires forall r :: r in left ==> cur + "(" <= r
    requires forall r :: r in right ==> cur + ")" <= r
    ensures forall r :: r in left ==> r !in right
  {
    assert (cur + "(")[|cur|] == '(' && (cur + ")")[|cur|] == ')';
    assert forall r :: r in right ==> r[|cur|] == ')';
    assert forall r :: r in left ==> r[|cur|] == '(';
  }

  /** A prefix has no more occurrences than the whole string. */
  lemma {:induction false} CountPrefix(t: string, k: nat, c: char)
    requires k <= |t|
    ensures Count(t[..k], c) <= Count(t, c)
    decreases |t| - k
  {
    if k < |t| {
      CountPrefix(t, k + 1, c);
      assert t[..k + 1][..k] == t[..k];
    } else {
      assert t[..k] == t;
    }
  }

  /** Completeness: every balanced string of `n` pairs that extends `cur`
      is generated. */
  lemma {:induction false} GenComplete(n: int, cur: string, open: nat, close: nat, t: string)
    requires Bounds(n, cur, open, close) && Counted(cur, open, close)
    requires cur <= t && WellFormed(t, n)
    ensures t in Gen(n, cur, open, close)
    decreases if n < 0 then 0 else Measure(n, open, close)
  {
    if |cur| == 2 * n {
      assert t == cur;
    } else {
      NextStep(n, cur, open, close, t);
      if t[|cur|] == '(' {
        GenComplete(n, cur + "(", open + 1, close, t);
        InOpenBranch(n, cur, open, close, t);
      } else {
        GenComplete(n, cur + ")", open, close + 1, t);
        InCloseBranch(n, cur, open, close, t);
      }
    }
  }

  /** What the `(` branch generates is generated. */
  lemma InOpenBranch(n: int, cur: string, open: nat, close: nat, t: string)
    requires Bounds(n, cur, open, close) && |cur| != 2 * n && open < n
    requires t in Gen(n, cur + "(", open + 1, close)
    ensures t in Gen(n, cur, open, close)
  {
    var right := if close < open then Gen(n, cur + ")", open, close + 1) else [];
    assert Gen(n, cur, open, close) == Gen(n, cur + "(", open + 1, close) + right;
  }

  /** What the `)` branch generates is generated. */
  lemma InCloseBranch(n: int, cur: string, open: nat, close: nat, t: string)
    requires Bounds(n, cur, open, close) && |cur| != 2 * n && close < open
    requires t in Gen(n, cur + ")", open, close + 1)
    ensures t in Gen(n, cur, open, close)
  {
    var left := if open < n then Gen(n, cur + "(", open + 1, close) else [];
    assert Gen(n, cur, open, close) == left + Gen(n, cur + ")", open, close + 1);
  }

  /** The character of `t` after `cur` is one that `backtrack` may add
      there. */
  lemma NextStep(n: int, cur: string, open: nat, close: nat, t: string)
    requires Bounds(n, cur, open, close) && Counted(cur, open, close)
    requires cur <= t && WellFormed(t, n) && |cur| != 2 * n
    ensures |cur| < |t|
    ensures t[|cur|] == '(' ==> open < n && cur + "(" <= t && Counted(cur + "(", open + 1, close)
    ensures t[|cur|] != '(' ==> close < open && cur + ")" <= t && Counted(cur + ")", open, close + 1)
  {
    var k := |cur|;
    var x := t[k];
    assert t[..k] == cur;
    assert t[..k + 1] == cur + [x];
    CountAppend(cur, x, '(');
    CountAppend(cur, x, ')');
    CountPrefix(t, k + 1, '(');
    CountPrefix(t, k + 1, ')');
    PrefixesBalancedIff(t);
    assert Count(t[..k + 1], ')') <= Count(t[..k + 1], '(');
    if x == '(' {
      assert cur + "(" == t[..k + 1];
      OpenStep(cur, open, close);
    } else {
      // both counts reach `n`, so every character is a parenthesis
      ParenthesesOnly(t, n, k);
      assert cur + ")" == t[..k + 1];
      CloseStep(cur, open, close);
    }
  }

  /** In a string of `n` pairs every character is a parenthesis. */
  lemma ParenthesesOnly(t: string, n: int, k: nat)
    requires WellFormed(t, n) && k < |t|
    ensures t[k] == '(' || t[k] == ')'
  {
    CountsBound(t);
    if t[k] != '(' && t[k] != ')' {
      CountsSkip(t, k);
    }
  }

  /** Opening and closing parentheses together fit in the string. */
  lemma {:induction false} CountsBound(t: string)
    ensures Count(t, '(') + Count(t, ')') <= |t|
  {
    if t != [] {
      CountsBound(t[..|t| - 1]);
    }
  }

  /** A character that is neither parenthesis leaves room for one less. */
  lemma {:induction false} CountsSkip(t: string, k: nat)
    requires k < |t| && t[k] != '(' && t[k] != ')'
    ensures Count(t, '(') + Count(t, ')') < |t|
  {
    var m := |t| - 1;
    if k == m {
      CountsBound(t[..m]);
    } else {
      CountsSkip(t[..m], k);
    }
  }

  /** The generator of one `generateParenthesis` call: `n` and the shared
      `result` list. */
  class Generator {
    const n: int
    var result: seq<string>

    constructor (n: int)
      ensures this.n == n && result == []
    {
      this.n := n;
      result := [];
    }

    /** `backtrack(current, open, close, n, result)`: `current` is passed
        by value, only `result` is shared. */
    method Backtrack(current: string, open: nat, close: nat)
      requires Bounds(n, current, open, close)
      modifies this
      ensures result == old(result) + Gen(n, current, open, close)
      decreases if n < 0 then 0 else Measure(n, open, close)
    {
      if |current| == 2 * n {
        result := result + [current];
        return;
      }
      ghost var left: seq<string> := [];
      ghost var right: seq<string> := [];
      if open < n {
        Backtrack(current + "(", open + 1, close);
        left := Gen(n, current + "(", open + 1, close);
      }
      ghost var middle := result;
      if close < open {
        Backtrack(current + ")", open, close + 1);
        right := Gen(n, current + ")", open, close + 1);
      }
      assert result == middle + right && middle == old(result) + left;
      AppendAssoc(old(result), left, right);
    }
  }

  /** `generateParenthesis(n)`: exactly the balanced strings of `n` pairs,
      each once; `[""]` for 0 and nothing for negative `n`. */
  method GenerateParenthesis(n: int) returns (result: seq<string>)
    ensures forall t :: t in result <==> WellFormed(t, n)
    ensures NoDuplicates(result)
    ensures n == 0 ==> result == [""]
    ensures n < 0 ==> result == []
  {
    var generator := new Generator(n);
    generator.Backtrack("", 0, 0);
    result := generator.result;
    assert result == Gen(n, "", 0, 0);
    GenSound(n, "", 0, 0);
    GenDistinct(n, "", 0, 0);
    forall t | WellFormed(t, n) ensures t in result {
      GenComplete(n, "", 0, 0, t);
    }
  }
}
