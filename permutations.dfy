/** Algorithms/Backtracking/Permutations.java: every ordering of `nums`,
    built with a shared `current` list and the `used[]` markers. */
module Permutations {
  import opened Common

  /** Number of indices not marked as used. */
  function CountFalse(used: seq<bool>): nat
  {
    if used == [] then 0 else (if used[0] then 0 else 1) + CountFalse(used[1..])
  }

  /** The multiset of the elements of `nums` whose index is not marked. */
  function Unused(nums: seq<int>, used: seq<bool>): (m: multiset<int>)
    requires |used| == |nums|
    ensures |m| == CountFalse(used)
  {
    if nums == [] then multiset{}
    else (if used[0] then multiset{} else multiset{nums[0]}) + Unused(nums[1..], used[1..])
  }

  /** Marking an unused index removes exactly that element from the unused ones. */
  lemma {:induction false} MarkUsed(nums: seq<int>, used: seq<bool>, i: nat)
    requires |used| == |nums| && i < |nums| && !used[i]
    ensures CountFalse(used[i := true]) + 1 == CountFalse(used)
    ensures Unused(nums, used[i := true]) + multiset{nums[i]} == Unused(nums, used)
  {
    if i > 0 {
      MarkUsed(nums[1..], used[1..], i - 1);
      assert used[i := true][1..] == used[1..][i - 1 := true];
    } else {
      assert used[i := true][1..] == used[1..];
    }
  }

  /** The indices not marked as used; it shrinks with every marking, which
      is why the search terminates. */
  function Free(used: seq<bool>): set<int>
  {
    set j | 0 <= j < |used| && !used[j]
  }

  /** The lists that `backtrack` appends when entered with markers `used`
      and `current == cur`: a snapshot when `cur` is full (the source does
      not return there), then the lists of the loop. */
  function Perms(nums: seq<int>, used: seq<bool>, cur: seq<int>): seq<seq<int>>
    requires |used| == |nums|
    decreases Free(used), 1, 0
  {
    (if |cur| == |nums| then [cur] else []) + PermsFrom(nums, used, cur, 0)
  }

  /** The lists appended by loop iterations `i..|nums| - 1`: an unused index
      is marked, its element appended, and the search continues. */
  function PermsFrom(nums: seq<int>, used: seq<bool>, cur: seq<int>, i: nat): seq<seq<int>>
    requires |used| == |nums| && i <= |nums|
    decreases Free(used), 0, |nums| - i
  {
    if i == |nums| then []
    else if used[i] then PermsFrom(nums, used, cur, i + 1)
    else
      assert Free(used[i := true]) < Free(used) by {
        assert i in Free(used) - Free(used[i := true]);
      }
      Perms(nums, used[i := true], cur + [nums[i]]) + PermsFrom(nums, used, cur, i + 1)
  }

  /** The markers agree with `cur`: every index is either used or still
      available, and the elements of `cur` with the unused ones make up `nums`. */
  predicate Consistent(nums: seq<int>, used: seq<bool>, cur: seq<int>)
  {
    |used| == |nums| && |cur| + CountFalse(used) == |nums| &&
    multiset(cur) + Unused(nums, used) == multiset(nums)
  }

  /** Choosing an unused index keeps the markers consistent with the builder. */
  lemma ConsistentChoose(nums: seq<int>, used: seq<bool>, cur: seq<int>, i: nat)
    requires Consistent(nums, used, cur) && i < |nums| && !used[i]
    ensures Consistent(nums, used[i := true], cur + [nums[i]])
  {
    MarkUsed(nums, used, i);
    assert multiset(cur + [nums[i]]) == multiset(cur) + multiset{nums[i]};
  }

  /** Every recorded list extends `cur` to a full arrangement of `nums`. */
  lemma {:induction false} PermsSound(nums: seq<int>, used: seq<bool>, cur: seq<int>)
    requires Consistent(nums, used, cur)
    ensures forall r :: r in Perms(nums, used, cur) ==>
              |r| == |nums| && cur <= r && multiset(r) == multiset(nums)
    decreases CountFalse(used), 1
  {
    PermsFromSound(nums, used, cur, 0);
    if |cur| == |nums| {
      assert |Unused(nums, used)| == 0;
    }
  }

  lemma {:induction false} PermsFromSound(nums: seq<int>, used: seq<bool>, cur: seq<int>, i: nat)
    requires Consistent(nums, used, cur) && i <= |nums|
    ensures forall r :: r in PermsFrom(nums, used, cur, i) ==>
              |r| == |nums| && |cur| < |r| && cur <= r && multiset(r) == multiset(nums) &&
              r[|cur|] in nums[i..]
    decreases CountFalse(used), 0, |nums| - i
  {
    if i < |nums| {
      var rest := PermsFrom(nums, used, cur, i + 1);
      PermsFromSound(nums, used, cur, i + 1);
      assert nums[i + 1..] == nums[i..][1..];
      if !used[i] {
        var next := cur + [nums[i]];
        var here := Perms(nums, used[i := true], next);
        ConsistentChoose(nums, used, cur, i);
        PermsSound(nums, used[i := true], next);
        assert PermsFrom(nums, used, cur, i) == here + rest;
        forall r | r in here + rest
          ensures |r| == |nums| && |cur| < |r| && cur <= r && multiset(r) == multiset(nums) &&
                  r[|cur|] in nums[i..]
        {
          if r in here {
            assert r[|cur|] == next[|cur|] == nums[i] == nums[i..][0];
          }
        }
      }
    }
  }

  /** `backtrack` entered with `k` unused indices records `k!` lists. */
  lemma {:induction false} PermsCount(nums: seq<int>, used: seq<bool>, cur: seq<int>)
    requires |used| == |nums| && |cur| + CountFalse(used) == |nums|
    ensures |Perms(nums, used, cur)| == Factorial(CountFalse(used))
    decreases CountFalse(used), 1
  {
    var k := CountFalse(used);
    assert used[0..] == used;
    if k == 0 {
      PermsFromCount(nums, used, cur, 0, 0);
    } else {
      PermsFromCount(nums, used, cur, 0, Factorial(k - 1));
    }
  }

  /** Each unused index from `i` on contributes `f` lists, where `f` is
      the number of arrangements of the remaining elements. */
  lemma {:induction false} PermsFromCount(nums: seq<int>, used: seq<bool>, cur: seq<int>, i: nat, f: nat)
    requires |used| == |nums| && |cur| + CountFalse(used) == |nums| && i <= |nums|
    requires CountFalse(used) > 0 ==> f == Factorial(CountFalse(used) - 1)
    ensures |PermsFrom(nums, used, cur, i)| == CountFalse(used[i..]) * f
    decreases CountFalse(used), 0, |nums| - i
  {
    if i < |nums| {
      var rest := PermsFrom(nums, used, cur, i + 1);
      PermsFromCount(nums, used, cur, i + 1, f);
      assert used[i..][1..] == used[i + 1..];
      var c := CountFalse(used[i + 1..]);
      if used[i] {
        assert PermsFrom(nums, used, cur, i) == rest;
        assert CountFalse(used[i..]) == c;
      } else {
        var here := Perms(nums, used[i := true], cur + [nums[i]]);
        MarkUsed(nums, used, i);
        assert |here| == f by {
          PermsCount(nums, used[i := true], cur + [nums[i]]);
        }
        assert PermsFrom(nums, used, cur, i) == here + rest;
        assert CountFalse(used[i..]) == 1 + c;
        MulSucc(CountFalse(used[i..]), c, |here|, |rest|, f);
      }
    } else {
      assert used[i..] == [];
    }
  }

  lemma MulSucc(total: nat, c: nat, here: nat, rest: nat, f: nat)
    requires total == 1 + c && here == f && rest == c * f
    ensures here + rest == total * f
  {
  }

  /** For duplicate-free `nums`, no list is recorded twice. */
  lemma {:induction false} PermsDistinct(nums: seq<int>, used: seq<bool>, cur: seq<int>)
    requires Consistent(nums, used, cur) && NoDuplicates(nums)
    ensures NoDuplicates(Perms(nums, used, cur))
    decreases CountFalse(used), 1
  {
    PermsFromDistinct(nums, used, cur, 0);
    PermsFromSound(nums, used, cur, 0);
    var head := if |cur| == |nums| then [cur] else [];
    NoDuplicatesAppend(head, PermsFrom(nums, used, cur, 0));
  }

  lemma {:induction false} PermsFromDistinct(nums: seq<int>, used: seq<bool>, cur: seq<int>, i: nat)
    requires Consistent(nums, used, cur) && NoDuplicates(nums) && i <= |nums|
    ensures NoDuplicates(PermsFrom(nums, used, cur, i))
    decreases CountFalse(used), 0, |nums| - i
  {
    if i < |nums| {
      PermsFromDistinct(nums, used, cur, i + 1);
      if !used[i] {
        var next := cur + [nums[i]];
        var left, right := Perms(nums, used[i := true], next), PermsFrom(nums, used, cur, i + 1);
        ConsistentChoose(nums, used, cur, i);
        PermsDistinct(nums, used[i := true], next);
        PermsSound(nums, used[i := true], next);
        PermsFromSound(nums, used, cur, i + 1);
        forall r | r in left ensures r !in right {
          assert r[|cur|] == next[|cur|] == nums[i];
          if r in right {
            assert false;
          }
        }
        NoDuplicatesAppend(left, right);
      }
    }
  }

  /** An element available to the search sits at some unused index. */
  lemma {:induction false} UnusedHas(nums: seq<int>, used: seq<bool>, x: int) returns (i: nat)
    requires |used| == |nums| && x in Unused(nums, used)
    ensures i < |nums| && !used[i] && nums[i] == x
  {
    if !used[0] && nums[0] == x {
      i := 0;
    } else {
      var j := UnusedHas(nums[1..], used[1..], x);
      i := j + 1;
    }
  }

  /** Completeness: every arrangement of all of `nums` that extends `cur`
      is recorded, whatever repeats `nums` holds. */
  lemma {:induction false} PermsComplete(nums: seq<int>, used: seq<bool>, cur: seq<int>, t: seq<int>)
    requires Consistent(nums, used, cur) && cur <= t
    requires |t| == |nums| && multiset(t) == multiset(nums)
    ensures t in Perms(nums, used, cur)
    decreases CountFalse(used)
  {
    if |cur| == |nums| {
      assert t == cur;
    } else {
      assert t == cur + t[|cur|..];
      var x := t[|cur|];
      assert x in multiset(t[|cur|..]) by {
        assert x == t[|cur|..][0];
      }
      assert x in Unused(nums, used) by {
        assert multiset(t) == multiset(cur) + multiset(t[|cur|..]);
        assert (multiset(cur) + multiset(t[|cur|..]))[x] == (multiset(cur) + Unused(nums, used))[x];
      }
      var i := UnusedHas(nums, used, x);
      ConsistentChoose(nums, used, cur, i);
      MarkUsed(nums, used, i);
      PermsComplete(nums, used[i := true], cur + [nums[i]], t);
      PermsFromReaches(nums, used, cur, 0, i, t);
    }
  }

  /** The loop from `i` reaches the unused index `j`, so the lists of
      that iteration are recorded. */
  lemma {:induction false} PermsFromReaches(nums: seq<int>, used: seq<bool>, cur: seq<int>, i: nat, j: nat, t: seq<int>)
    requires |used| == |nums| && i <= j < |nums| && !used[j]
    requires t in Perms(nums, used[j := true], cur + [nums[j]])
    ensures t in PermsFrom(nums, used, cur, i)
    decreases j - i
  {
    if i < j {
      PermsFromReaches(nums, used, cur, i + 1, j, t);
    }
  }

  /** The search context of one `permute` call. */
  class PermutationSearch {
    const nums: seq<int>
    const used: array<bool>
    var current: seq<int>
    var result: seq<seq<int>>

    /** The markers describe `current`: the elements at marked indices are
        exactly the elements of `current`, counted with multiplicity. */
    ghost predicate MarkersAgree()
      reads this, used
    {
      Consistent(nums, used[..], current)
    }

    /** `used` is allocated and filled with `false`, as `Arrays.fill` does. */
    constructor (nums: seq<int>)
      ensures this.nums == nums && fresh(used) && used.Length == |nums|
      ensures forall k :: 0 <= k < used.Length ==> !used[k]
      ensures current == [] && result == [] && MarkersAgree()
    {
      this.nums := nums;
      used := new bool[|nums|](_ => false);
      current := [];
      result := [];
      new;
      AllUnused(nums, used[..]);
    }

    /** `backtrack(current, nums, result, used)`: records a snapshot when
        `current` is full, then tries every unused index, marking it and
        appending its element around the recursive call. */
    method Backtrack()
      requires MarkersAgree()
      modifies this, used
      ensures MarkersAgree()
      ensures current == old(current) && used[..] == old(used[..])
      ensures result == old(result) + Perms(nums, old(used[..]), old(current))
      decreases Free(used[..])
    {
      ghost var entry, cur := used[..], current;
      assert Consistent(nums, entry, cur);
      ghost var head := if |cur| == |nums| then [cur] else [];
      if |current| == |nums| {
        result := result + [current];
      }
      AppendAssoc(old(result), head, PermsFrom(nums, entry, cur, 0));
      for i := 0 to |nums|
        invariant current == cur && used[..] == entry
        invariant result + PermsFrom(nums, entry, cur, i) == old(result) + Perms(nums, entry, cur)
      {
        if !used[i] {
          ghost var before, sub, rest := result, Perms(nums, entry[i := true], cur + [nums[i]]), PermsFrom(nums, entry, cur, i + 1);
          ConsistentChoose(nums, entry, cur, i);
          assert PermsFrom(nums, entry, cur, i) == sub + rest;
          used[i] := true;
          assert used[..] == entry[i := true];
          current := current + [nums[i]];
          assert i in Free(entry) - Free(used[..]);
          Backtrack();
          AppendAssoc(before, sub, rest);
          current := current[..|current| - 1];
          assert current == cur;
          used[i] := false;
          assert used[..] == entry;
        }
      }
    }
  }

  /** `permute(nums)`: n! lists, exactly the rearrangements of all of
      `nums`, pairwise distinct when `nums` is; `[[]]` for empty input. */
  method Permute(nums: array<int>) returns (result: seq<seq<int>>)
    ensures |result| == Factorial(nums.Length)
    ensures forall r :: r in result <==> |r| == nums.Length && multiset(r) == multiset(nums[..])
    ensures NoDuplicates(nums[..]) ==> NoDuplicates(result)
    ensures nums.Length == 0 ==> result == [[]]
  {
    var search := new PermutationSearch(nums[..]);
    ghost var noneUsed := search.used[..];
    assert CountFalse(noneUsed) == nums.Length && Unused(nums[..], noneUsed) == multiset(nums[..]) by {
      AllUnused(nums[..], noneUsed);
    }
    search.Backtrack();
    result := search.result;
    assert result == Perms(nums[..], noneUsed, []);
    PermsCount(nums[..], noneUsed, []);
    PermsSound(nums[..], noneUsed, []);
    forall r | |r| == nums.Length && multiset(r) == multiset(nums[..]) ensures r in result {
      PermsComplete(nums[..], noneUsed, [], r);
    }
    if NoDuplicates(nums[..]) {
      PermsDistinct(nums[..], noneUsed, []);
    }
    if nums.Length == 0 {
      assert result[0] in result;
    }
  }

  /** With no index marked, every element is available. */
  lemma {:induction false} AllUnused(nums: seq<int>, used: seq<bool>)
    requires |used| == |nums| && forall k :: 0 <= k < |used| ==> !used[k]
    ensures CountFalse(used) == |nums| && Unused(nums, used) == multiset(nums)
  {
    if nums != [] {
      AllUnused(nums[1..], used[1..]);
      assert nums == [nums[0]] + nums[1..];
    }
  }
}
