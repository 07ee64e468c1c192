/** DataStructure/Backtracking/CombinationSumTwo.java: the distinct
    combinations of candidates (each index used at most once) adding up to
    the target, found after sorting the candidates in place. */
module CombinationSumTwo {
  import opened Common

  // ---------------------------------------------------------------
  // Sorting: `Arrays.sort(candidates)`
  // ---------------------------------------------------------------

  /** `x` inserted before the first element of `t` that is not smaller. */
  function Insert(x: int, t: seq<int>): (r: seq<int>)
    ensures |r| == |t| + 1
  {
    if t == [] || x <= t[0] then [x] + t else [t[0]] + Insert(x, t[1..])
  }

  /** Insertion sort, the reference for the order `Arrays.sort` produces. */
  function SortSeq(s: seq<int>): (r: seq<int>)
    ensures |r| == |s|
  {
    if s == [] then [] else Insert(s[0], SortSeq(s[1..]))
  }

  /** Inserting adds exactly `x` to the elements. */
  lemma {:induction false} InsertElements(x: int, t: seq<int>)
    ensures multiset(Insert(x, t)) == multiset(t) + multiset{x}
  {
    if t == [] || x <= t[0] {
      assert multiset([x] + t) == multiset{x} + multiset(t);
    } else {
      InsertElements(x, t[1..]);
      assert t == [t[0]] + t[1..];
      assert multiset([t[0]] + Insert(x, t[1..])) == multiset{t[0]} + multiset(Insert(x, t[1..]));
    }
  }

  /** Inserting into a sorted sequence keeps it sorted. */
  lemma {:induction false} InsertSorted(x: int, t: seq<int>)
    requires Sorted(t)
    ensures Sorted(Insert(x, t))
  {
    if t == [] || x <= t[0] {
      SortedCons(x, t);
    } else {
      var r := Insert(x, t[1..]);
      assert Sorted(t[1..]);
      InsertSorted(x, t[1..]);
      assert forall y :: y in r ==> t[0] <= y by {
        InsertElements(x, t[1..]);
        forall y | y in r ensures t[0] <= y {
          assert y in multiset(r);
          if y != x {
            assert y in t[1..];
          }
        }
      }
      SortedCons(t[0], r);
    }
  }

  /** `SortSeq` sorts and keeps exactly the same elements. */
  lemma {:induction false} SortSeqCorrect(s: seq<int>)
    ensures Sorted(SortSeq(s))
    ensures multiset(SortSeq(s)) == multiset(s)
  {
    if s != [] {
      var rest := SortSeq(s[1..]);
      SortSeqCorrect(s[1..]);
      assert SortSeq(s) == Insert(s[0], rest);
      InsertSorted(s[0], rest);
      assert multiset(Insert(s[0], rest)) == multiset(s) by {
        InsertElements(s[0], rest);
        assert s == [s[0]] + s[1..];
      }
    }
  }

  /** Sorts `a` in place: afterwards it holds `SortSeq` of its old contents. */
  method SortInPlace(a: array<int>)
    modifies a
    ensures a[..] == SortSeq(old(a[..]))
    ensures Sorted(a[..]) && multiset(a[..]) == multiset(old(a[..]))
  {
    var sorted := SortSeq(a[..]);
    SortSeqCorrect(a[..]);
    for k := 0 to a.Length
      invariant forall m :: 0 <= m < k ==> a[m] == sorted[m]
    {
      a[k] := sorted[k];
    }
    assert a[..] == sorted;
  }

  // ---------------------------------------------------------------
  // The search
  // ---------------------------------------------------------------

  /** The lists that `backtrack(index, rem, ...)` appends when entered with
      `current == cur`: a snapshot at remainder 0, nothing more below 0,
      otherwise the lists of the loop. */
  function Combos(c: seq<int>, index: nat, rem: int, cur: seq<int>): seq<seq<int>>
    requires index <= |c|
    decreases |c| - index, 1, 0
  {
    (if rem == 0 then [cur] else []) + (if rem < 0 then [] else Loop(c, index, index, rem, cur))
  }

  /** Candidate `i` equals its left neighbour and is not the first one
      tried at this depth. */
  predicate Repeats(c: seq<int>, index: nat, i: nat)
    requires i < |c|
  {
    i > index && c[i] == c[i - 1]
  }

  /** The lists appended by loop iterations `i..`: a candidate equal to its
      left neighbour (other than the first) is skipped, the first candidate
      above the remainder ends the loop, any other is taken once and the
      search continues after it. */
  function Loop(c: seq<int>, index: nat, i: nat, rem: int, cur: seq<int>): seq<seq<int>>
    requires index <= i <= |c|
    decreases |c| - index, 0, |c| - i
  {
    if i == |c| then []
    else if Repeats(c, index, i) then Loop(c, index, i + 1, rem, cur)
    else if c[i] > rem then []
    else Combos(c, i + 1, rem - c[i], cur + [c[i]]) + Loop(c, index, i + 1, rem, cur)
  }

  /** Soundness: every recorded list extends `cur` by a subsequence of
      `c[index..]` (each index at most once) adding exactly `rem`. */
  lemma {:induction false} CombosSound(c: seq<int>, index: nat, rem: int, cur: seq<int>)
    requires index <= |c|
    ensures forall r :: r in Combos(c, index, rem, cur) ==>
              cur <= r && IsSubseqFrom(r[|cur|..], c, index) && Sum(r) == Sum(cur) + rem
    decreases |c| - index, 1, 0
  {
    if rem == 0 {
      assert cur[|cur|..] == [];
    }
    if rem >= 0 {
      LoopSound(c, index, index, rem, cur);
    }
  }

  lemma {:induction false} LoopSound(c: seq<int>, index: nat, i: nat, rem: int, cur: seq<int>)
    requires index <= i <= |c|
    ensures forall r :: r in Loop(c, index, i, rem, cur) ==>
              |cur| < |r| && cur <= r && IsSubseqFrom(r[|cur|..], c, i) && Sum(r) == Sum(cur) + rem
    decreases |c| - index, 0, |c| - i
  {
    if i < |c| {
      var rest := Loop(c, index, i + 1, rem, cur);
      LoopSound(c, index, i + 1, rem, cur);
      assert forall r :: r in rest ==> IsSubseqFrom(r[|cur|..], c, i) by {
        forall r | r in rest ensures IsSubseqFrom(r[|cur|..], c, i) {
          IsSubseqFromWeaken(r[|cur|..], c, i, i + 1);
        }
      }
      if Repeats(c, index, i) {
        assert Loop(c, index, i, rem, cur) == rest;
      } else if c[i] > rem {
        assert Loop(c, index, i, rem, cur) == [];
      } else {
        var next := cur + [c[i]];
        var here := Combos(c, i + 1, rem - c[i], next);
        assert Loop(c, index, i, rem, cur) == here + rest;
        CombosSound(c, i + 1, rem - c[i], next);
        forall r | r in here
          ensures |cur| < |r| && cur <= r && IsSubseqFrom(r[|cur|..], c, i) && Sum(r) == Sum(cur) + rem
        {
          TakenSound(c, i, rem, cur, next, r);
        }
      }
    }
  }

  /** A list recorded below iteration `i` that took `c[i]` is sound for
      the loop at `i`. */
  lemma {:induction false} TakenSound(c: seq<int>, i: nat, rem: int, cur: seq<int>, next: seq<int>, r: seq<int>)
    requires i < |c| && next == cur + [c[i]] && next <= r
    requires IsSubseqFrom(r[|next|..], c, i + 1) && Sum(r) == Sum(next) + (rem - c[i])
    ensures |cur| < |r| && cur <= r && IsSubseqFrom(r[|cur|..], c, i) && Sum(r) == Sum(cur) + rem
  {
    assert Sum(next) == Sum(cur) + c[i] by {
      SumAppend(cur, [c[i]]);
      assert Sum([c[i]]) == c[i];
    }
    assert r[|cur|..][1..] == r[|next|..];
    TakenSubseq(c, i, r[|cur|..]);
  }

  lemma TakenSubseq(c: seq<int>, i: nat, t: seq<int>)
    requires i < |c| && t != [] && t[0] == c[i] && IsSubseqFrom(t[1..], c, i + 1)
    ensures IsSubseqFrom(t, c, i)
  {
  }

  /** On sorted candidates, past the first iteration every list starts its
      extension with a value above the previous candidate: the skip rule
      removes the equal ones. */
  lemma {:induction false} LoopHeadAbove(c: seq<int>, index: nat, i: nat, rem: int, cur: seq<int>)
    requires Sorted(c) && index < i <= |c|
    ensures forall r :: r in Loop(c, index, i, rem, cur) ==> |cur| < |r| && r[|cur|] > c[i - 1]
    decreases |c| - i
  {
    if i < |c| {
      var rest := Loop(c, index, i + 1, rem, cur);
      LoopHeadAbove(c, index, i + 1, rem, cur);
      assert c[i - 1] <= c[i];
      if Repeats(c, index, i) {
        assert Loop(c, index, i, rem, cur) == rest;
      } else if c[i] > rem {
        assert Loop(c, index, i, rem, cur) == [];
      } else {
        var next := cur + [c[i]];
        var here := Combos(c, i + 1, rem - c[i], next);
        CombosSound(c, i + 1, rem - c[i], next);
        assert Loop(c, index, i, rem, cur) == here + rest;
        forall r | r in here + rest ensures |cur| < |r| && r[|cur|] > c[i - 1] {
          if r in here {
            assert r[|cur|] == next[|cur|];
          }
        }
      }
    }
  }

  /** On sorted candidates no list is recorded twice. */
  lemma {:induction false} CombosDistinct(c: seq<int>, index: nat, rem: int, cur: seq<int>)
    requires Sorted(c) && index <= |c|
    ensures NoDuplicates(Combos(c, index, rem, cur))
    decreases |c| - index, 1, 0
  {
    if rem >= 0 {
      LoopDistinct(c, index, index, rem, cur);
      LoopSound(c, index, index, rem, cur);
      var head := if rem == 0 then [cur] else [];
      NoDuplicatesAppend(head, Loop(c, index, index, rem, cur));
    }
  }

  lemma {:induction false} LoopDistinct(c: seq<int>, index: nat, i: nat, rem: int, cur: seq<int>)
    requires Sorted(c) && index <= i <= |c|
    ensures NoDuplicates(Loop(c, index, i, rem, cur))
    decreases |c| - index, 0, |c| - i
  {
    if i < |c| {
      LoopDistinct(c, index, i + 1, rem, cur);
      var rest := Loop(c, index, i + 1, rem, cur);
      if Repeats(c, index, i) {
        assert Loop(c, index, i, rem, cur) == rest;
      } else if c[i] > rem {
        assert Loop(c, index, i, rem, cur) == [];
      } else {
        var next := cur + [c[i]];
        var here := Combos(c, i + 1, rem - c[i], next);
        assert Loop(c, index, i, rem, cur) == here + rest;
        CombosDistinct(c, i + 1, rem - c[i], next);
        CombosSound(c, i + 1, rem - c[i], next);
        LoopHeadAbove(c, index, i + 1, rem, cur);
        forall r | r in here ensures r !in rest {
          assert r[|cur|] == next[|cur|] == c[i];
        }
        NoDuplicatesAppend(here, rest);
      }
    }
  }

  /** A sorted list whose first element is positive adds up to at least
      that element. */
  lemma {:induction false} SortedHeadAtMostSum(s: seq<int>)
    requires Sorted(s) && s != [] && s[0] > 0
    ensures s[0] <= Sum(s)
  {
    if |s| > 1 {
      assert Sorted(s[1..]) by {
        forall i, j | 0 <= i < j < |s[1..]| ensures s[1..][i] <= s[1..][j] {
          assert s[1..][i] == s[i + 1] && s[1..][j] == s[j + 1];
        }
      }
      assert s[1..][0] == s[1] >= s[0];
      SortedHeadAtMostSum(s[1..]);
    }
  }

  /** The skip and the early exit lose no solution on sorted candidates
      and a remainder of at least 0: every subsequence of `c[index..]`
      adding up to `rem`, appended to `cur`, is recorded. Along such a
      subsequence the remainder never drops below 0, and the early exit
      only cuts off candidates larger than the whole remainder. */
  lemma {:induction false} CombosComplete(c: seq<int>, index: nat, rem: int, cur: seq<int>, s: seq<int>)
    requires Sorted(c) && index <= |c| && rem >= 0
    requires IsSubseqFrom(s, c, index) && Sum(s) == rem
    ensures cur + s in Combos(c, index, rem, cur)
    decreases |c| - index
  {
    if s == [] {
      assert cur + s == cur;
    } else {
      var j := SubseqHead(s, c, index);
      // move to the first occurrence of `s[0]` at or after `index`
      var j0 := j;
      while j0 > index && c[j0 - 1] == c[j0]
        invariant index <= j0 <= j && c[j0] == s[0]
        decreases j0
      {
        j0 := j0 - 1;
      }
      IsSubseqFromWeaken(s[1..], c, j0 + 1, j + 1);
      IsSubseqFromSorted(s, c, index);
      assert Sum(s) == s[0] + Sum(s[1..]);
      if s[0] > 0 {
        SortedHeadAtMostSum(s);
      }
      assert 0 <= Sum(s[1..]) == rem - c[j0];
      CombosComplete(c, j0 + 1, rem - c[j0], cur + [c[j0]], s[1..]);
      assert cur + [c[j0]] + s[1..] == cur + s;
      LoopReaches(c, index, index, j0, rem, cur, cur + s);
    }
  }

  /** The loop from `i` reaches iteration `j0` (no early exit before it,
      and `j0` is not skipped), so that iteration's lists are recorded. */
  lemma {:induction false} LoopReaches(c: seq<int>, index: nat, i: nat, j0: nat, rem: int, cur: seq<int>, r: seq<int>)
    requires Sorted(c) && index <= i <= j0 < |c|
    requires j0 == index || c[j0 - 1] != c[j0]
    requires c[j0] <= rem && r in Combos(c, j0 + 1, rem - c[j0], cur + [c[j0]])
    ensures r in Loop(c, index, i, rem, cur)
    decreases j0 - i
  {
    if i < j0 {
      LoopReaches(c, index, i + 1, j0, rem, cur, r);
    }
  }

  /** A non-empty subsequence starts at some index `j` at or after `k`. */
  lemma {:induction false} SubseqHead(s: seq<int>, c: seq<int>, k: nat) returns (j: nat)
    requires s != [] && IsSubseqFrom(s, c, k)
    ensures k <= j < |c| && c[j] == s[0] && IsSubseqFrom(s[1..], c, j + 1)
    decreases |c| - k
  {
    if s[0] == c[k] && IsSubseqFrom(s[1..], c, k + 1) {
      j := k;
    } else {
      j := SubseqHead(s, c, k + 1);
    }
  }

  /** The search context of one `combinationSum2` call, over the sorted
      candidates. */
  class CombinationSearch {
    const candidates: seq<int>
    var current: seq<int>
    var result: seq<seq<int>>

    constructor (candidates: seq<int>)
      ensures this.candidates == candidates && current == [] && result == []
    {
      this.candidates := candidates;
      current := [];
      result := [];
    }

    /** `backtrack(index, remainingTarget, current, result, candidates)`. */
    method Backtrack(index: nat, remainingTarget: int)
      requires index <= |candidates|
      modifies this
      ensures current == old(current)
      ensures result == old(result) + Combos(candidates, index, remainingTarget, old(current))
      decreases |candidates| - index
    {
      ghost var cur := current;
      ghost var head := if remainingTarget == 0 then [cur] else [];
      if remainingTarget == 0 {
        result := result + [current];
      }
      if remainingTarget < 0 {
        return;
      }
      ghost var total := old(result) + Combos(candidates, index, remainingTarget, cur);
      AppendAssoc(old(result), head, Loop(candidates, index, index, remainingTarget, cur));
      for i := index to |candidates|
        invariant current == cur
        invariant result + Loop(candidates, index, i, remainingTarget, cur) == total
      {
        if Repeats(candidates, index, i) {
          continue;
        }
        if candidates[i] > remainingTarget {
          break;
        }
        ghost var before := result;
        ghost var here := Combos(candidates, i + 1, remainingTarget - candidates[i], cur + [candidates[i]]);
        ghost var rest := Loop(candidates, index, i + 1, remainingTarget, cur);
        current := current + [candidates[i]];
        Backtrack(i + 1, remainingTarget - candidates[i]);
        AppendAssoc(before, here, rest);
        current := current[..|current| - 1];
      }
    }
  }

  /** `combinationSum2(candidates, target)`: `candidates` ends up sorted (a
      permutation of its old contents); every recorded list is a
      subsequence of it adding up to `target`, hence non-decreasing; no
      list is recorded twice; and for a target of at least 0 every such
      subsequence is recorded. */
  method CombinationSum2(candidates: array<int>, target: int) returns (result: seq<seq<int>>)
    modifies candidates
    ensures candidates[..] == SortSeq(old(candidates[..]))
    ensures forall r :: r in result ==>
              IsSubseqFrom(r, candidates[..], 0) && Sum(r) == target && Sorted(r)
    ensures NoDuplicates(result)
    ensures target >= 0 ==>
              forall s :: IsSubseqFrom(s, candidates[..], 0) && Sum(s) == target ==> s in result
    ensures target < 0 ==> result == []
  {
    SortInPlace(candidates);
    var search := new CombinationSearch(candidates[..]);
    search.Backtrack(0, target);
    result := search.result;
    ghost var c := candidates[..];
    assert result == Combos(c, 0, target, []);
    SortSeqCorrect(old(candidates[..]));
    CombosSound(c, 0, target, []);
    forall r | r in result ensures IsSubseqFrom(r, c, 0) && Sum(r) == target && Sorted(r) {
      assert r[0..] == r;
      IsSubseqFromSorted(r, c, 0);
    }
    CombosDistinct(c, 0, target, []);
    if target >= 0 {
      forall s | IsSubseqFrom(s, c, 0) && Sum(s) == target ensures s in result {
        CombosComplete(c, 0, target, [], s);
        assert [] + s == s;
      }
    }
  }
}
