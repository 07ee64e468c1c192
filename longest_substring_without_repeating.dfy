/** DataStructure/SlidingWindow/LongestSubStringWithoutRepeating.java: the
    same set-backed sliding window as the first method of
    DataStructure/Arrays/TwoPointers/LengthOfLongestSubstring.java, here
    with its bound on the number of window moves made explicit. */
module LongestSubStringWithoutRepeating {
  import opened Common
  import TwoPointers = LengthOfLongestSubstring

  /** `lengthOfLongestSubstring(s)`: `steps` counts the iterations of the
      loop, each of which moves one end of the window forward, so there
      are at most `2|s|` of them. */
  method LengthOfLongestSubstring(s: string) returns (res: int, ghost steps: nat)
    ensures TwoPointers.IsLongestDistinct(s, res)
    ensures 0 <= res <= |s| && (s == [] ==> res == 0)
    ensures |s| <= steps <= 2 * |s|
  {
    res := 0;
    var window: set<char> := {};
    var start := 0;
    var end := 0;
    ghost var best := 0;
    steps := 0;
    while end < |s|
      invariant 0 <= start <= end <= |s| && steps == start + end
      invariant window == TwoPointers.Chars(s, start, end) && TwoPointers.Distinct(s, start, end)
      invariant end - start <= res <= end
      invariant 0 <= best && best + res <= end && TwoPointers.Distinct(s, best, best + res)
      invariant forall i, j :: 0 <= i <= j <= |s| && i < start && TwoPointers.Distinct(s, i, j) ==> j - i <= res
      decreases 2 * |s| - start - end
    {
      var current := s[end];
      if current !in window {
        assert TwoPointers.Chars(s, start, end + 1) == window + {current};
        window := window + {current};
        best := if end - start + 1 > res then start else best;
        res := Max(res, end - start + 1);
        end := end + 1;
      } else {
        var k :| start <= k < end && s[k] == current;
        forall j | end < j <= |s| ensures !TwoPointers.Distinct(s, start, j) {
          assert s[k] == s[end];
        }
        assert TwoPointers.Chars(s, start + 1, end) == window - {s[start]};
        window := window - {s[start]};
        start := start + 1;
      }
      steps := steps + 1;
    }
  }
}
