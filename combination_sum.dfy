/** Algorithms/Backtracking/CombinationSum.java: every multiset of
    candidates (each index reusable) that adds up to the target, listed
    with non-decreasing indices. */
module CombinationSum {
  import opened Common

  /** The search only terminates when every candidate is positive: a zero
      candidate keeps the remainder unchanged, so the recursion never ends. */
  predicate AllPositive(c: seq<int>)
  {
    forall k :: 0 <= k < |c| ==> c[k] > 0
  }

  /** Shrinks with every recursive call made from a non-negative remainder. */
  function Measure(rem: int): nat
  {
    if rem < 0 then 0 else rem + 1
  }

  /** `s` is `c[i1], ..., c[im]` for indices `k <= i1 <= ... <= im`: the
      same index may be taken again. */
  predicate ChosenFrom(s: seq<int>, c: seq<int>, k: nat)
    decreases |c| - k, |s|
  {
    s == [] ||
    (k < |c| && ((s[0] == c[k] && ChosenFrom(s[1..], c, k)) || ChosenFrom(s, c, k + 1)))
  }

  /** The lists that `backtrack(index, rem, ...)` appends when entered with
      `current == cur`: a snapshot at remainder 0 (with no return after
      it), nothing more below 0, otherwise the lists of the loop. Below 0
      the candidates are never read, so they need not be positive. */
  function Combos(c: seq<int>, index: nat, rem: int, cur: seq<int>): seq<seq<int>>
    requires (rem < 0 || AllPositive(c)) && index <= |c|
    decreases Measure(rem), 1, 0
  {
    (if rem == 0 then [cur] else []) + (if rem < 0 then [] else CombosFrom(c, index, rem, cur))
  }

  /** The lists appended by loop iterations `i..|c| - 1`: iteration `i`
      appends `c[i]` and searches again from the same index `i`. */
  function CombosFrom(c: seq<int>, i: nat, rem: int, cur: seq<int>): seq<seq<int>>
    requires AllPositive(c) && i <= |c| && rem >= 0
    decreases Measure(rem), 0, |c| - i
  {
    if i == |c| then []
    else Combos(c, i, rem - c[i], cur + [c[i]]) + CombosFrom(c, i + 1, rem, cur)
  }

  /** Soundness: every recorded list extends `cur` by candidates chosen
      from index `index` on, and adds exactly `rem` to the sum of `cur`. */
  lemma {:induction false} CombosSound(c: seq<int>, index: nat, rem: int, cur: seq<int>)
    requires AllPositive(c) && index <= |c|
    ensures forall r :: r in Combos(c, index, rem, cur) ==>
              cur <= r && ChosenFrom(r[|cur|..], c, index) && Sum(r) == Sum(cur) + rem
    decreases Measure(rem), 1, 0
  {
    if rem == 0 {
      assert cur[|cur|..] == [];
    }
    if rem >= 0 {
      CombosFromSound(c, index, rem, cur);
    }
  }

  lemma {:induction false} CombosFromSound(c: seq<int>, i: nat, rem: int, cur: seq<int>)
    requires AllPositive(c) && i <= |c| && rem >= 0
    ensures forall r :: r in CombosFrom(c, i, rem, cur) ==>
              cur <= r && ChosenFrom(r[|cur|..], c, i) && Sum(r) == Sum(cur) + rem
    decreases Measure(rem), 0, |c| - i
  {
    if i < |c| {
      var next := cur + [c[i]];
      var here, rest := Combos(c, i, rem - c[i], next), CombosFrom(c, i + 1, rem, cur);
      CombosSound(c, i, rem - c[i], next);
      CombosFromSound(c, i + 1, rem, cur);
      SumAppend(cur, [c[i]]);
      assert Sum([c[i]]) == c[i];
      forall r | r in here + rest
        ensures cur <= r && ChosenFrom(r[|cur|..], c, i) && Sum(r) == Sum(cur) + rem
      {
        if r in here {
          assert r[|cur|..] == [c[i]] + r[|next|..];
          assert r[|cur|..][1..] == r[|next|..];
        } else {
          var t := r[|cur|..];
          if t != [] {
            assert ChosenFrom(t, c, i + 1);
          }
        }
      }
    }
  }

  /** A non-empty choice of positive candidates has a positive sum. */
  lemma {:induction false} ChosenSumPositive(s: seq<int>, c: seq<int>, k: nat)
    requires AllPositive(c) && ChosenFrom(s, c, k) && s != []
    ensures Sum(s) > 0
    decreases |c| - k, |s|
  {
    if s[0] == c[k] && ChosenFrom(s[1..], c, k) {
      if s[1..] != [] {
        ChosenSumPositive(s[1..], c, k);
      }
    } else {
      ChosenSumPositive(s, c, k + 1);
    }
  }

  /** Completeness: every choice from index `index` on that adds up to
      `rem`, appended to `cur`, is recorded. */
  lemma {:induction false} CombosComplete(c: seq<int>, index: nat, rem: int, cur: seq<int>, s: seq<int>)
    requires AllPositive(c) && index <= |c|
    requires ChosenFrom(s, c, index) && Sum(s) == rem
    ensures cur + s in Combos(c, index, rem, cur)
    decreases Measure(rem), 1, 0
  {
    if s == [] {
      assert cur + s == cur;
    } else {
      ChosenSumPositive(s, c, index);
      CombosFromComplete(c, index, rem, cur, s);
    }
  }

  lemma {:induction false} CombosFromComplete(c: seq<int>, i: nat, rem: int, cur: seq<int>, s: seq<int>)
    requires AllPositive(c) && i <= |c| && rem >= 0
    requires s != [] && ChosenFrom(s, c, i) && Sum(s) == rem
    ensures cur + s in CombosFrom(c, i, rem, cur)
    decreases Measure(rem), 0, |c| - i
  {
    if s[0] == c[i] && ChosenFrom(s[1..], c, i) {
      CombosComplete(c, i, rem - c[i], cur + [c[i]], s[1..]);
      assert cur + [c[i]] + s[1..] == cur + s;
    } else {
      CombosFromComplete(c, i + 1, rem, cur, s);
    }
  }

  /** Recording at remainder 0 without returning adds nothing more: every
      child call starts below 0. */
  lemma {:induction false} ZeroRemainder(c: seq<int>, index: nat, cur: seq<int>)
    requires AllPositive(c) && index <= |c|
    ensures Combos(c, index, 0, cur) == [cur]
  {
    NoChildAtZero(c, index, cur);
  }

  lemma {:induction false} NoChildAtZero(c: seq<int>, i: nat, cur: seq<int>)
    requires AllPositive(c) && i <= |c|
    ensures CombosFrom(c, i, 0, cur) == []
    decreases |c| - i
  {
    if i < |c| {
      NoChildAtZero(c, i + 1, cur);
    }
  }

  /** A non-empty choice from index `k` on starts with some `c[j]`,
      `j >= k`. */
  lemma {:induction false} ChosenHead(t: seq<int>, c: seq<int>, k: nat) returns (j: nat)
    requires t != [] && ChosenFrom(t, c, k)
    ensures k <= j < |c| && t[0] == c[j]
    decreases |c| - k
  {
    if t[0] == c[k] && ChosenFrom(t[1..], c, k) {
      j := k;
    } else {
      j := ChosenHead(t, c, k + 1);
    }
  }

  /** For positive candidates without repeated values no list is recorded
      twice. */
  lemma {:induction false} CombosDistinct(c: seq<int>, index: nat, rem: int, cur: seq<int>)
    requires AllPositive(c) && NoDuplicates(c) && index <= |c|
    ensures NoDuplicates(Combos(c, index, rem, cur))
    decreases Measure(rem), 1, 0
  {
    if rem == 0 {
      NoChildAtZero(c, index, cur);
      assert Combos(c, index, rem, cur) == [cur];
    } else if rem > 0 {
      CombosFromDistinct(c, index, rem, cur);
      assert Combos(c, index, rem, cur) == CombosFrom(c, index, rem, cur);
    }
  }

  /** Lists of iteration `i` continue `cur` with `c[i]`, lists of later
      iterations with some later candidate, so they never meet. */
  lemma {:induction false} CombosFromDistinct(c: seq<int>, i: nat, rem: int, cur: seq<int>)
    requires AllPositive(c) && NoDuplicates(c) && i <= |c| && rem >= 0
    ensures NoDuplicates(CombosFrom(c, i, rem, cur))
    decreases Measure(rem), 0, |c| - i
  {
    if i < |c| {
      var next := cur + [c[i]];
      var here, rest := Combos(c, i, rem - c[i], next), CombosFrom(c, i + 1, rem, cur);
      CombosDistinct(c, i, rem - c[i], next);
      CombosFromDistinct(c, i + 1, rem, cur);
      CombosSound(c, i, rem - c[i], next);
      CombosFromSound(c, i + 1, rem, cur);
      forall r | r in rest ensures |r| <= |cur| || r[|cur|] != c[i] {
        if |r| > |cur| {
          var j := ChosenHead(r[|cur|..], c, i + 1);
          assert r[|cur|] == c[j];
        }
      }
      forall r | r in here ensures r !in rest {
        assert |r| > |cur| && r[|cur|] == next[|cur|] == c[i];
      }
      NoDuplicatesAppend(here, rest);
    }
  }

  /** The search context of one `combinationSum` call. */
  class CombinationSearch {
    const candidates: seq<int>
    var current: seq<int>
    var result: seq<seq<int>>

    constructor (candidates: seq<int>)
      ensures this.candidates == candidates && current == [] && result == []
    {
      this.candidates := candidates;
      current := [];
      result := [];
    }

    /** `backtrack(index, remainingTarget, current, result, candidates)`. */
    method Backtrack(index: nat, remainingTarget: int)
      requires (remainingTarget < 0 || AllPositive(candidates)) && index <= |candidates|
      modifies this
      ensures current == old(current)
      ensures result == old(result) + Combos(candidates, index, remainingTarget, old(current))
      decreases Measure(remainingTarget)
    {
      ghost var cur := current;
      ghost var head := if remainingTarget == 0 then [cur] else [];
      if remainingTarget == 0 {
        result := result + [current];
      }
      if remainingTarget < 0 {
        return;
      }
      AppendAssoc(old(result), head, CombosFrom(candidates, index, remainingTarget, cur));
      for i := index to |candidates|
        invariant current == cur
        invariant result + CombosFrom(candidates, i, remainingTarget, cur) ==
                  old(result) + Combos(candidates, index, remainingTarget, cur)
      {
        ghost var before := result;
        ghost var here := Combos(candidates, i, remainingTarget - candidates[i], cur + [candidates[i]]);
        ghost var rest := CombosFrom(candidates, i + 1, remainingTarget, cur);
        current := current + [candidates[i]];
        Backtrack(i, remainingTarget - candidates[i]);
        AppendAssoc(before, here, rest);
        current := current[..|current| - 1];
      }
    }
  }

  /** `combinationSum(candidates, target)`: the recorded lists are exactly
      the choices of candidates (indices non-decreasing, reuse allowed)
      that add up to `target`; `[]` below 0 and `[[]]` at 0. A negative
      target returns at once whatever the candidates; otherwise they must
      be positive for the search to end. Candidates without repeated
      values give each list once. */
  method CombinationSum(candidates: array<int>, target: int) returns (result: seq<seq<int>>)
    requires target < 0 || AllPositive(candidates[..])
    ensures AllPositive(candidates[..]) ==>
              forall r :: r in result <==> ChosenFrom(r, candidates[..], 0) && Sum(r) == target
    ensures target < 0 ==> result == []
    ensures target == 0 ==> result == [[]]
    ensures AllPositive(candidates[..]) && NoDuplicates(candidates[..]) ==> NoDuplicates(result)
  {
    var search := new CombinationSearch(candidates[..]);
    search.Backtrack(0, target);
    result := search.result;
    assert result == Combos(candidates[..], 0, target, []);
    if AllPositive(candidates[..]) {
      CombosSound(candidates[..], 0, target, []);
      forall r | ChosenFrom(r, candidates[..], 0) && Sum(r) == target ensures r in result {
        CombosComplete(candidates[..], 0, target, [], r);
        assert [] + r == r;
      }
      forall r | r in result ensures ChosenFrom(r, candidates[..], 0) && Sum(r) == target {
        assert r[0..] == r;
      }
      if NoDuplicates(candidates[..]) {
        CombosDistinct(candidates[..], 0, target, []);
      }
    }
    if target == 0 {
      ZeroRemainder(candidates[..], 0, []);
    }
  }
}
