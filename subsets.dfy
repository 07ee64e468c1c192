/** Algorithms/Backtracking/SubSets.java: every subset of `nums`, in
    depth-first order, built with one shared `current` list. */
module SubSets {
  import opened Common

  /** The lists that `backtrack(index)` appends to `result` when it is
      entered with `current == cur`: a snapshot of `cur` first, then the
      lists of each child call. */
  function Explore(nums: seq<int>, index: nat, cur: seq<int>): (r: seq<seq<int>>)
    requires index <= |nums|
    ensures |r| == Pow2(|nums| - index)
    decreases |nums| - index, 1
  {
    [cur] + ExploreFrom(nums, index, cur)
  }

  /** The lists appended by the iterations `i, i + 1, ..., |nums| - 1` of
      the loop in `backtrack`: iteration `i` explores `cur + [nums[i]]`
      from index `i + 1`. */
  function ExploreFrom(nums: seq<int>, i: nat, cur: seq<int>): (r: seq<seq<int>>)
    requires i <= |nums|
    ensures |r| == Pow2(|nums| - i) - 1
    decreases |nums| - i, 0
  {
    if i == |nums| then []
    else Explore(nums, i + 1, cur + [nums[i]]) + ExploreFrom(nums, i + 1, cur)
  }

  /** Soundness: every recorded list extends `cur` by a subsequence of
      `nums[index..]`. */
  lemma {:induction false} ExploreSound(nums: seq<int>, index: nat, cur: seq<int>)
    requires index <= |nums|
    ensures forall r :: r in Explore(nums, index, cur) ==>
              cur <= r && IsSubseqFrom(r[|cur|..], nums, index)
    decreases |nums| - index, 1
  {
    assert cur[|cur|..] == [];
    ExploreFromSound(nums, index, cur);
  }

  lemma {:induction false} ExploreFromSound(nums: seq<int>, i: nat, cur: seq<int>)
    requires i <= |nums|
    ensures forall r :: r in ExploreFrom(nums, i, cur) ==>
              |cur| < |r| && cur <= r && IsSubseqFrom(r[|cur|..], nums, i)
    decreases |nums| - i, 0
  {
    if i < |nums| {
      var next := cur + [nums[i]];
      ExploreSound(nums, i + 1, next);
      ExploreFromSound(nums, i + 1, cur);
      forall r | r in ExploreFrom(nums, i, cur)
        ensures |cur| < |r| && cur <= r && IsSubseqFrom(r[|cur|..], nums, i)
      {
        if r in Explore(nums, i + 1, next) {
          assert r[|cur|..] == [nums[i]] + r[|next|..];
          assert r[|cur|..][1..] == r[|next|..];
        } else {
          IsSubseqFromWeaken(r[|cur|..], nums, i, i + 1);
        }
      }
    }
  }

  /** Completeness: every subsequence of `nums[index..]` appended to `cur`
      is recorded. */
  lemma {:induction false} ExploreComplete(nums: seq<int>, index: nat, cur: seq<int>, s: seq<int>)
    requires index <= |nums| && IsSubseqFrom(s, nums, index)
    ensures cur + s in Explore(nums, index, cur)
    decreases |nums| - index, 1
  {
    if s == [] {
      assert cur + s == cur;
    } else {
      ExploreFromComplete(nums, index, cur, s);
    }
  }

  lemma {:induction false} ExploreFromComplete(nums: seq<int>, i: nat, cur: seq<int>, s: seq<int>)
    requires i <= |nums| && s != [] && IsSubseqFrom(s, nums, i)
    ensures cur + s in ExploreFrom(nums, i, cur)
    decreases |nums| - i, 0
  {
    if s[0] == nums[i] && IsSubseqFrom(s[1..], nums, i + 1) {
      ExploreComplete(nums, i + 1, cur + [nums[i]], s[1..]);
      assert cur + [nums[i]] + s[1..] == cur + s;
    } else {
      ExploreFromComplete(nums, i + 1, cur, s);
    }
  }

  /** For duplicate-free `nums`, no list is recorded twice. */
  lemma {:induction false} ExploreDistinct(nums: seq<int>, index: nat, cur: seq<int>)
    requires index <= |nums| && NoDuplicates(nums)
    ensures NoDuplicates(Explore(nums, index, cur))
    decreases |nums| - index, 1
  {
    ExploreFromDistinct(nums, index, cur);
    ExploreFromSound(nums, index, cur);
    NoDuplicatesAppend([cur], ExploreFrom(nums, index, cur));
  }

  lemma {:induction false} ExploreFromDistinct(nums: seq<int>, i: nat, cur: seq<int>)
    requires i <= |nums| && NoDuplicates(nums)
    ensures NoDuplicates(ExploreFrom(nums, i, cur))
    decreases |nums| - i, 0
  {
    if i < |nums| {
      var next := cur + [nums[i]];
      var left, right := Explore(nums, i + 1, next), ExploreFrom(nums, i + 1, cur);
      ExploreDistinct(nums, i + 1, next);
      ExploreFromDistinct(nums, i + 1, cur);
      ExploreSound(nums, i + 1, next);
      ExploreFromSound(nums, i + 1, cur);
      forall r | r in left ensures r !in right {
        assert r[|cur|] == next[|cur|] == nums[i];
        if r in right {
          IsSubseqFromHead(r[|cur|..], nums, i + 1);
          assert false;
        }
      }
      NoDuplicatesAppend(left, right);
    }
  }

  /** The search context of one `subsets` call: the input, the shared
      `current` builder and the `result` accumulator. */
  class SubsetSearch {
    const nums: seq<int>
    var current: seq<int>
    var result: seq<seq<int>>

    constructor (nums: seq<int>)
      ensures this.nums == nums && current == [] && result == []
    {
      this.nums := nums;
      current := [];
      result := [];
    }

    /** `backtrack(index, result, current, nums)`: records a snapshot of
        `current`, then extends it by each `nums[i]`, `i >= index`,
        recursing on `i + 1` and removing the element again. */
    method Backtrack(index: nat)
      requires index <= |nums|
      modifies this
      ensures current == old(current)
      ensures result == old(result) + Explore(nums, index, old(current))
      decreases |nums| - index
    {
      ghost var cur := current;
      result := result + [current];
      AppendAssoc(old(result), [cur], ExploreFrom(nums, index, cur));
      for i := index to |nums|
        invariant current == cur
        invariant result + ExploreFrom(nums, i, cur) == old(result) + Explore(nums, index, cur)
      {
        ghost var before := result;
        ghost var here := Explore(nums, i + 1, cur + [nums[i]]);
        ghost var rest := ExploreFrom(nums, i + 1, cur);
        current := current + [nums[i]];
        Backtrack(i + 1);
        AppendAssoc(before, here, rest);
        current := current[..|current| - 1];
      }
    }
  }

  /** `subsets(nums)`: the recorded lists are exactly the subsequences of
      `nums` (elements at strictly increasing indices), the empty one
      first, 2^|nums| of them, pairwise distinct when `nums` is. */
  method Subsets(nums: array<int>) returns (result: seq<seq<int>>)
    ensures |result| == Pow2(nums.Length)
    ensures result[0] == []
    ensures forall r :: r in result <==> IsSubseqFrom(r, nums[..], 0)
    ensures NoDuplicates(nums[..]) ==> NoDuplicates(result)
  {
    var search := new SubsetSearch(nums[..]);
    search.Backtrack(0);
    result := search.result;
    assert result == Explore(nums[..], 0, []);
    ExploreSound(nums[..], 0, []);
    forall r | IsSubseqFrom(r, nums[..], 0) ensures r in result {
      ExploreComplete(nums[..], 0, [], r);
      assert [] + r == r;
    }
    forall r | r in result ensures IsSubseqFrom(r, nums[..], 0) {
      assert r[0..] == r;
    }
    if NoDuplicates(nums[..]) {
      ExploreDistinct(nums[..], 0, []);
    }
  }
}
