/** DataStructure/Arrays/TwoPointers/LengthOfLongestSubstring.java: the
    length of the longest substring without a repeated character, once
    with a sliding window kept in a set and once with the last position
    of every ASCII character. */
module LengthOfLongestSubstring {
  import opened Common

  /** `s[i..j]` has no repeated character. */
  predicate Distinct(s: string, i: int, j: int)
    requires 0 <= i <= j <= |s|
  {
    forall a, b :: i <= a < b < j ==> s[a] != s[b]
  }

  /** `r` is the length of a longest substring of `s` without a repeated
      character: some such substring has length `r` and none is longer. */
  ghost predicate IsLongestDistinct(s: string, r: int)
  {
    (exists i, j :: 0 <= i <= j <= |s| && j - i == r && Distinct(s, i, j)) &&
    (forall i, j :: 0 <= i <= j <= |s| && Distinct(s, i, j) ==> j - i <= r)
  }

  /** The longest length is well defined: two lengths that both qualify
      are equal. */
  lemma LongestUnique(s: string, r1: int, r2: int)
    requires IsLongestDistinct(s, r1) && IsLongestDistinct(s, r2)
    ensures r1 == r2
  {
    var i1, j1 :| 0 <= i1 <= j1 <= |s| && j1 - i1 == r1 && Distinct(s, i1, j1);
    var i2, j2 :| 0 <= i2 <= j2 <= |s| && j2 - i2 == r2 && Distinct(s, i2, j2);
    assert r1 <= r2 && r2 <= r1;
  }

  /** The longest length lies between 0 and `|s|`; it is 0 exactly for the
      empty string. */
  lemma LongestBounds(s: string, r: int)
    requires IsLongestDistinct(s, r)
    ensures 0 <= r <= |s|
    ensures r == 0 <==> s == []
  {
    var i, j :| 0 <= i <= j <= |s| && j - i == r && Distinct(s, i, j);
    if s != [] {
      assert Distinct(s, 0, 1);
    }
  }

  /** The characters of `s[i..j]`. */
  function Chars(s: string, i: int, j: int): set<char>
    requires 0 <= i <= j <= |s|
  {
    set k | i <= k < j :: s[k]
  }

  /** `lengthOfLongestSubstring(s)`: the window `s[start..end]` is kept
      free of repeats, its characters in `set`; the window grows while
      the next character is new and shrinks from the left otherwise. */
  method LengthOfLongestSubstring(s: string) returns (res: int)
    ensures IsLongestDistinct(s, res)
  {
    res := 0;
    var window: set<char> := {};
    var start := 0;
    var end := 0;
    ghost var best := 0;
    while end < |s|
      invariant 0 <= start <= end <= |s|
      invariant window == Chars(s, start, end) && Distinct(s, start, end)
      invariant end - start <= res
      invariant 0 <= best && best + res <= end && Distinct(s, best, best + res)
      invariant forall i, j :: 0 <= i <= j <= |s| && i < start && Distinct(s, i, j) ==> j - i <= res
      decreases 2 * |s| - start - end
    {
      var current := s[end];
      if current !in window {
        assert Chars(s, start, end + 1) == window + {current};
        window := window + {current};
        best := if end - start + 1 > res then start else best;
        res := Max(res, end - start + 1);
        end := end + 1;
      } else {
        var k :| start <= k < end && s[k] == current;
        forall j | end < j <= |s| ensures !Distinct(s, start, j) {
          assert s[k] == s[end];
        }
        assert Chars(s, start + 1, end) == window - {s[start]};
        window := window - {s[start]};
        start := start + 1;
      }
    }
  }

  /** Every character of `s` is ASCII, so it can index `lastSeen`. */
  predicate Ascii(s: string)
  {
    forall k :: 0 <= k < |s| ==> s[k] as int < 128
  }

  /** The last position before `end` where `c` occurs in `s`, or -1. */
  function LastBefore(s: string, end: int, c: int): (k: int)
    requires 0 <= end <= |s|
    ensures -1 <= k < end
    ensures k >= 0 ==> s[k] as int == c
    ensures forall j :: k < j < end ==> s[j] as int != c
  {
    if end == 0 then -1
    else if s[end - 1] as int == c then end - 1
    else LastBefore(s, end - 1, c)
  }

  /** `lengthOfLongestSubstringEfficient(s)`: `lastSeen[c]` holds the last
      position of `c` so far; the window starts just after the last
      repeat of the character that ends it. */
  method LengthOfLongestSubstringEfficient(s: string) returns (maxLength: int)
    requires Ascii(s)
    ensures IsLongestDistinct(s, maxLength)
  {
    var lastSeen := new int[128](_ => -1);
    maxLength := 0;
    var start := 0;
    ghost var best := 0;
    for end := 0 to |s|
      invariant 0 <= start <= end <= |s|
      invariant forall c :: 0 <= c < 128 ==> lastSeen[c] == LastBefore(s, end, c)
      invariant Distinct(s, start, end)
      invariant forall i :: 0 <= i < start ==> !Distinct(s, i, end)
      invariant 0 <= best && 0 <= maxLength && best + maxLength <= end && Distinct(s, best, best + maxLength)
      invariant forall i, j :: 0 <= i <= j <= end && Distinct(s, i, j) ==> j - i <= maxLength
    {
      var current := s[end] as int;
      ghost var oldStart := start;
      if lastSeen[current] >= start {
        start := lastSeen[current] + 1;
      }
      WindowStep(s, oldStart, start, end, end + 1);
      LastBeforeStep(s, end, end + 1);
      lastSeen[current] := end;
      ghost var oldMax := maxLength;
      best := if end - start + 1 > maxLength then start else best;
      maxLength := Max(maxLength, end - start + 1);
      LongestStep(s, start, end, end + 1, oldMax, maxLength);
    }
  }

  /** Seeing `s[end]` moves its last position to `end` and leaves every
      other character's. */
  lemma LastBeforeStep(s: string, end: int, next: int)
    requires 0 <= end < |s| && next == end + 1
    ensures forall c :: LastBefore(s, next, c) == if c == s[end] as int then end else LastBefore(s, end, c)
  {
  }

  /** A bound on the repeat-free windows inside `s[..end]` extends to
      `s[..end + 1]` once it covers the longest window ending there. */
  lemma LongestStep(s: string, start: int, end: int, next: int, before: int, after: int)
    requires 0 <= start <= end < |s| && next == end + 1
    requires forall i :: 0 <= i < start ==> !Distinct(s, i, next)
    requires forall i, j :: 0 <= i <= j <= end && Distinct(s, i, j) ==> j - i <= before
    requires before <= after && next - start <= after
    ensures forall i, j :: 0 <= i <= j <= next && Distinct(s, i, j) ==> j - i <= after
  {
  }

  /** Moving the start of the window past the last repeat of `s[end]`
      gives the longest repeat-free window that ends with `s[end]`. */
  lemma WindowStep(s: string, oldStart: int, start: int, end: int, next: int)
    requires 0 <= oldStart <= start <= end < |s| && next == end + 1
    requires Distinct(s, oldStart, end)
    requires forall i :: 0 <= i < oldStart ==> !Distinct(s, i, end)
    requires start == if LastBefore(s, end, s[end] as int) >= oldStart
                       then LastBefore(s, end, s[end] as int) + 1 else oldStart
    ensures Distinct(s, start, next)
    ensures forall i :: 0 <= i < start ==> !Distinct(s, i, next)
  {
    var last := LastBefore(s, end, s[end] as int);
    forall i | 0 <= i < start ensures !Distinct(s, i, next) {
      if i < oldStart {
        assert !Distinct(s, i, end);
      } else {
        assert s[last] == s[end];
      }
    }
  }
}
