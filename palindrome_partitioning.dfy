/** DataStructure/Backtracking/PalindromePartitioning.java: every way of
    cutting a string into non-empty palindromes, found by trying each
    palindromic prefix of the rest of the string. */
module PalindromePartitioning {
  import opened Common

  /** `t` reads the same backwards. */
  predicate IsPalindromic(t: string)
  {
    t == Reverse(t)
  }

  /** The parts glued together. */
  function Concat(ps: seq<string>): string
  {
    if ps == [] then [] else ps[0] + Concat(ps[1..])
  }

  /** `ps` cuts `t` into non-empty palindromes. */
  predicate PalindromePartition(ps: seq<string>, t: string)
  {
    (forall p :: p in ps ==> p != [] && IsPalindromic(p)) && Concat(ps) == t
  }

  // ---------------------------------------------------------------
  // isPalindrome
  // ---------------------------------------------------------------

  /** Every character equals its mirror image. */
  predicate Mirrored(t: string)
  {
    forall k :: 0 <= k < |t| ==> t[k] == t[|t| - 1 - k]
  }

  lemma MirroredIsPalindromic(t: string)
    ensures Mirrored(t) <==> IsPalindromic(t)
  {
    forall k | 0 <= k < |t| ensures Reverse(t)[k] == t[|t| - 1 - k] {
      ReverseAt(t, k);
    }
    if Mirrored(t) {
      assert Reverse(t) == t;
    }
  }

  /** `isPalindrome(s)`: two indices walk inwards from both ends, keeping
      `left + right == |t| - 1`, and stop at the first mismatch. */
  method IsPalindrome(t: string) returns (b: bool)
    ensures b <==> IsPalindromic(t)
  {
    MirroredIsPalindromic(t);
    var left, right := 0, |t| - 1;
    while left < right
      invariant 0 <= left <= |t| && left + right == |t| - 1
      invariant forall k :: 0 <= k < left ==> t[k] == t[|t| - 1 - k]
      decreases right - left
    {
      if t[left] != t[right] {
        return false;
      }
      left, right := left + 1, right - 1;
    }
    forall k | 0 <= k < |t| ensures t[k] == t[|t| - 1 - k] {
      if k >= left && |t| - 1 - k >= left {
        // only the middle character is left unchecked
        assert k == |t| - 1 - k;
      } else if k >= left {
        assert t[|t| - 1 - k] == t[|t| - 1 - (|t| - 1 - k)];
      }
    }
    return true;
  }

  // ---------------------------------------------------------------
  // The search
  // ---------------------------------------------------------------

  /** The lists that `backtrack(index, ...)` appends when entered with
      `current == cur`: the snapshot at the end of the string, otherwise
      the lists of the loop. */
  function Parts(s: string, index: nat, cur: seq<string>): seq<seq<string>>
    requires index <= |s|
    decreases |s| - index, 1, 0
  {
    if index == |s| then [cur] else PartLoop(s, index, index, cur)
  }

  /** The lists appended by loop iterations `i..|s| - 1`: when
      `s[index..i + 1]` is a palindrome it becomes the next part and the
      search goes on from `i + 1`. */
  function PartLoop(s: string, index: nat, i: nat, cur: seq<string>): seq<seq<string>>
    requires index <= i <= |s|
    decreases |s| - index, 0, |s| - i
  {
    if i == |s| then []
    else
      (if IsPalindromic(s[index..i + 1]) then Parts(s, i + 1, cur + [s[index..i + 1]]) else []) +
      PartLoop(s, index, i + 1, cur)
  }

  /** Soundness: every recorded list extends `cur` by a partition of
      `s[index..]` into non-empty palindromes. */
  lemma {:induction false} PartsSound(s: string, index: nat, cur: seq<string>)
    requires index <= |s|
    ensures forall r :: r in Parts(s, index, cur) ==>
              cur <= r && PalindromePartition(r[|cur|..], s[index..])
    decreases |s| - index, 1, 0
  {
    if index == |s| {
      assert cur[|cur|..] == [];
    } else {
      PartLoopSound(s, index, index, cur);
    }
  }

  /** The lists of the loop from `i` also have a first new part longer
      than `i - index`. */
  lemma {:induction false} PartLoopSound(s: string, index: nat, i: nat, cur: seq<string>)
    requires index <= i <= |s|
    ensures forall r :: r in PartLoop(s, index, i, cur) ==>
              |cur| < |r| && cur <= r && |r[|cur|]| > i - index &&
              PalindromePartition(r[|cur|..], s[index..])
    decreases |s| - index, 0, |s| - i
  {
    if i < |s| {
      var rest := PartLoop(s, index, i + 1, cur);
      PartLoopSound(s, index, i + 1, cur);
      var p := s[index..i + 1];
      if IsPalindromic(p) {
        var next := cur + [p];
        var here := Parts(s, i + 1, next);
        assert PartLoop(s, index, i, cur) == here + rest;
        PartsSound(s, i + 1, next);
        forall r | r in here
          ensures |cur| < |r| && cur <= r && |r[|cur|]| > i - index &&
                  PalindromePartition(r[|cur|..], s[index..])
        {
          TakenSound(s, index, i, cur, next, r);
        }
      } else {
        assert PartLoop(s, index, i, cur) == rest;
      }
    }
  }

  /** A list recorded after taking the palindrome `s[index..i + 1]` is
      sound for the loop at `i`. */
  lemma {:induction false} TakenSound(s: string, index: nat, i: nat, cur: seq<string>, next: seq<string>, r: seq<string>)
    requires index <= i < |s| && IsPalindromic(s[index..i + 1]) && next == cur + [s[index..i + 1]]
    requires next <= r && PalindromePartition(r[|next|..], s[i + 1..])
    ensures |cur| < |r| && cur <= r && |r[|cur|]| > i - index
    ensures PalindromePartition(r[|cur|..], s[index..])
  {
    var p := s[index..i + 1];
    var ps := r[|cur|..];
    assert r[|cur|] == next[|cur|] == p;
    assert ps == [p] + r[|next|..];
    assert ps[1..] == r[|next|..];
    assert s[index..] == p + s[i + 1..];
  }

  /** Completeness: every partition of `s[index..]` into non-empty
      palindromes, appended to `cur`, is recorded. */
  lemma {:induction false} PartsComplete(s: string, index: nat, cur: seq<string>, ps: seq<string>)
    requires index <= |s| && PalindromePartition(ps, s[index..])
    ensures cur + ps in Parts(s, index, cur)
    decreases |s| - index, 1, 0
  {
    if index == |s| {
      PartitionOfEmpty(ps);
      assert cur + ps == cur;
    } else {
      if ps == [] {
        assert false;
      }
      var p := ps[0];
      assert p in ps;
      var j := index + |p| - 1;
      assert s[index..] == p + Concat(ps[1..]);
      assert p == s[index..j + 1];
      assert Concat(ps[1..]) == s[j + 1..];
      forall q | q in ps[1..] ensures q != [] && IsPalindromic(q) {
        assert q in ps;
      }
      PartsComplete(s, j + 1, cur + [p], ps[1..]);
      assert cur + [p] + ps[1..] == cur + ps;
      PartLoopComplete(s, index, index, j, cur, cur + ps);
    }
  }

  /** Non-empty parts make a string at least as long as their number. */
  lemma {:induction false} ConcatLength(ps: seq<string>)
    requires forall p :: p in ps ==> p != []
    ensures |Concat(ps)| >= |ps|
  {
    if ps != [] {
      assert ps[0] in ps;
      forall q | q in ps[1..] ensures q != [] {
        assert q in ps;
      }
      ConcatLength(ps[1..]);
    }
  }

  /** The empty string has only the empty partition. */
  lemma PartitionOfEmpty(ps: seq<string>)
    requires PalindromePartition(ps, [])
    ensures ps == []
  {
    ConcatLength(ps);
  }

  /** Iteration `j` of the loop from `i` is reached, so its lists are in
      the loop's lists. */
  lemma {:induction false} PartLoopComplete(s: string, index: nat, i: nat, j: nat, cur: seq<string>, r: seq<string>)
    requires index <= i <= j < |s| && IsPalindromic(s[index..j + 1])
    requires r in Parts(s, j + 1, cur + [s[index..j + 1]])
    ensures r in PartLoop(s, index, i, cur)
    decreases j - i
  {
    if i < j {
      PartLoopComplete(s, index, i + 1, j, cur, r);
    }
  }

  /** No list is recorded twice: lists from different iterations differ in
      the length of their first new part. */
  lemma {:induction false} PartsDistinct(s: string, index: nat, cur: seq<string>)
    requires index <= |s|
    ensures NoDuplicates(Parts(s, index, cur))
    decreases |s| - index, 1, 0
  {
    if index < |s| {
      PartLoopDistinct(s, index, index, cur);
    }
  }

  lemma {:induction false} PartLoopDistinct(s: string, index: nat, i: nat, cur: seq<string>)
    requires index <= i <= |s|
    ensures NoDuplicates(PartLoop(s, index, i, cur))
    decreases |s| - index, 0, |s| - i
  {
    if i < |s| {
      var rest := PartLoop(s, index, i + 1, cur);
      PartLoopDistinct(s, index, i + 1, cur);
      var p := s[index..i + 1];
      if IsPalindromic(p) {
        var next := cur + [p];
        var here := Parts(s, i + 1, next);
        assert PartLoop(s, index, i, cur) == here + rest;
        PartsDistinct(s, i + 1, next);
        assert forall r :: r in here ==> r !in rest by {
          PartsSound(s, i + 1, next);
          PartLoopSound(s, index, i + 1, cur);
          forall r | r in here ensures r !in rest {
            assert r[|cur|] == next[|cur|] == p;
          }
        }
        NoDuplicatesAppend(here, rest);
      } else {
        assert PartLoop(s, index, i, cur) == rest;
      }
    }
  }

  /** The one-character parts of `t`. */
  function Singletons(t: string): (ps: seq<string>)
    ensures |ps| == |t|
  {
    if t == [] then [] else [[t[0]]] + Singletons(t[1..])
  }

  /** Cutting into single characters is a palindrome partition. */
  lemma {:induction false} SingletonsPartition(t: string)
    ensures PalindromePartition(Singletons(t), t)
  {
    if t != [] {
      SingletonsPartition(t[1..]);
      var ps := Singletons(t);
      assert ps[1..] == Singletons(t[1..]);
      assert Reverse([t[0]]) == [t[0]];
      forall p | p in ps ensures p != [] && IsPalindromic(p) {
        if p != ps[0] {
          assert p in ps[1..];
        }
      }
      assert t == [t[0]] + t[1..];
    }
  }

  /** The search context of one `partition` call. */
  class PartitionSearch {
    const s: string
    var current: seq<string>
    var result: seq<seq<string>>

    constructor (s: string)
      ensures this.s == s && current == [] && result == []
    {
      this.s := s;
      current := [];
      result := [];
    }

    /** `backtrack(index, s, result, current)`. */
    method Backtrack(index: nat)
      requires index <= |s|
      modifies this
      ensures current == old(current)
      ensures result == old(result) + Parts(s, index, old(current))
      decreases |s| - index
    {
      if index == |s| {
        result := result + [current];
        return;
      }
      ghost var cur := current;
      for i := index to |s|
        invariant current == cur
        invariant result + PartLoop(s, index, i, cur) == old(result) + Parts(s, index, cur)
      {
        var subString := s[index..i + 1];
        var palindrome := IsPalindrome(subString);
        if palindrome {
          ghost var before := result;
          ghost var here := Parts(s, i + 1, cur + [subString]);
          ghost var rest := PartLoop(s, index, i + 1, cur);
          current := current + [subString];
          Backtrack(i + 1);
          AppendAssoc(before, here, rest);
          current := current[..|current| - 1];
        }
      }
    }
  }

  /** `partition(s)`: the recorded lists are exactly the partitions of `s`
      into non-empty palindromes, each once; the one-character partition
      is among them, and the empty string has just the empty partition. */
  method Partition(s: string) returns (result: seq<seq<string>>)
    ensures forall ps :: ps in result <==> PalindromePartition(ps, s)
    ensures NoDuplicates(result)
    ensures Singletons(s) in result
    ensures s == [] ==> result == [[]]
  {
    var search := new PartitionSearch(s);
    search.Backtrack(0);
    result := search.result;
    assert result == Parts(s, 0, []);
    assert s[0..] == s;
    PartsSound(s, 0, []);
    forall ps | PalindromePartition(ps, s) ensures ps in result {
      PartsComplete(s, 0, [], ps);
      assert [] + ps == ps;
    }
    forall ps | ps in result ensures PalindromePartition(ps, s) {
      assert ps[0..] == ps;
    }
    PartsDistinct(s, 0, []);
    SingletonsPartition(s);
  }
}
