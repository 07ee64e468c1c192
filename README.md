# problem-solving-java, modelled in Dafny

A Dafny model of the exercise solutions in the Java repository
problem-solving-java. There is one module for each solution class.

- **The backtracking searches:**
  - `SubSets`, `Permutations`, `CombinationSum` and `CombinationSumTwo`.
  - `PalindromePartitioning`, `GenerateParentheses` and `WordSearch`.
- **The sliding-window scans:**
  - `LengthOfLongestSubstring`, in both its set-backed and its `lastSeen[128]` form.
  - `LongestSubStringWithoutRepeating`.
- **The digit arithmetic:** `AddTwoNumbers` over linked lists, and `RevereseInteger`.

`Common` holds the shared definitions. These are powers, factorial, sums,
sortedness, duplicate-freedom, subsequences, little-endian digit values,
and Java's truncating `/ 10` and `% 10`.

Five of the searches collect lists through a shared builder: `SubSets`, `Permutations`,
`CombinationSum`, `CombinationSumTwo` and `PalindromePartitioning`. Each becomes a Dafny `class`
that holds its search context:
- the input;
- the shared `current` builder;
- the `result` list;
- the `used` markers, in `Permutations`.

Its recursive `Backtrack` method is proved against a function that lists exactly what the Java
`backtrack` appends to `result`, in the same order. The builder and markers are restored on
return.

The other two searches differ in form:
- **`GenerateParentheses.Generator`:** holds only `n` and `result`. `current` is a string passed by
  value, as in the source, so it is a parameter of `Backtrack`. `Backtrack` is proved against the
  function `Gen` in the same way.
- **`WordSearch`:** has no result list and no class. `Backtrack` and `Exist` are module-level
  methods. The `visited` grid is an `array2<bool>` passed in, as in the source. `Backtrack` returns
  a `bool` proved equal to the predicate `Search`, and leaves every mark as it found it.

Lemmas about these functions and `Search` then give what each top-level call promises:
- which lists are found, or for `WordSearch` whether a path exists (soundness and completeness);
- how many lists there are, for `SubSets` and `Permutations`;
- that no list is found twice.

The scans and the arithmetic are methods with loops. Each loop carries the invariants that tie
it to a reference definition:
- **Longest substring:** the longest repeat-free substring.
- **`addTwoNumbers`:** digit-by-digit addition with a carry. Its nodes are real heap objects, and a
  new node is linked in at each step.
- **`reverse`:** the reversed decimal digits of `|x|`, with the sign of `x`.

Two places where the code does more than a quick reading suggests:
- **`combinationSum` does not return after recording a list at remainder 0.** The loop still runs,
  and each child call starts below 0 and returns at once. `CombinationSum.ZeroRemainder` proves that
  nothing further is recorded.
- **`permute` does not return after recording a full list.** Its loop then finds no unused index.

In `reverse`, the range check `a > Math.pow(2, 31)` lets 2^31 itself through. Casting 2^31 to `int`
would wrap it to `Integer.MIN_VALUE`. `RevereseInteger.ReversedNotPow31` proves that no 32-bit input
reverses to 2^31, so this never happens.

## Model

| member | source | states |
|---|---|---|
| Common.JavaDiv10 | DSA/Math/RevereseInteger.java:10 | Java's `x / 10`: the quotient is truncated toward zero, keeps the sign of `x`, and is smaller in magnitude for nonzero `x` |
| Common.JavaRem10 | DSA/Math/RevereseInteger.java:9 | Java's `x % 10`: `x == 10 * (x / 10) + x % 10`, the remainder lies strictly between -10 and 10 and has the sign of `x` |
| SubSets.Explore | Algorithms/Backtracking/SubSets.java:30-37 | `backtrack(index)` records 2^(n - index) lists |
| SubSets.ExploreFrom | Algorithms/Backtracking/SubSets.java:32-36 | the loop from `i` records 2^(n - i) - 1 lists |
| SubSets.ExploreSound | Algorithms/Backtracking/SubSets.java:30-37 | every recorded list is `current` extended by a subsequence of `nums[index..]` |
| SubSets.ExploreFromSound | Algorithms/Backtracking/SubSets.java:32-36 | every list of the loop from `i` strictly extends `current` by a subsequence of `nums[i..]` |
| SubSets.ExploreComplete | Algorithms/Backtracking/SubSets.java:30-37 | every subsequence of `nums[index..]` appended to `current` is recorded |
| SubSets.ExploreFromComplete | Algorithms/Backtracking/SubSets.java:32-36 | every non-empty subsequence of `nums[i..]` appended to `current` is recorded by the loop from `i` |
| SubSets.ExploreDistinct | Algorithms/Backtracking/SubSets.java:30-37 | for duplicate-free `nums` no list is recorded twice |
| SubSets.ExploreFromDistinct | Algorithms/Backtracking/SubSets.java:32-36 | for duplicate-free `nums` the loop records no list twice |
| SubSets.SubsetSearch.constructor | Algorithms/Backtracking/SubSets.java:24-25 | the search starts with empty `result` and `current` |
| SubSets.SubsetSearch.Backtrack | Algorithms/Backtracking/SubSets.java:30-37 | `current` is restored and `result` grows by exactly the lists `Explore` describes |
| SubSets.Subsets | Algorithms/Backtracking/SubSets.java:23-28 | 2^n lists, the empty one first, exactly the subsequences of `nums`, pairwise distinct when `nums` is |
| Permutations.Perms | Algorithms/Backtracking/Permutations.java:37-52 | the lists `backtrack` appends: a snapshot of a full `current` without returning, then the loop's lists |
| Permutations.PermsFrom | Algorithms/Backtracking/Permutations.java:42-50 | the lists of loop iterations `i..n-1`: each unused index is marked, its element appended, and the search recurses |
| Permutations.MarkUsed | Algorithms/Backtracking/Permutations.java:43-45 | marking an unused index removes exactly its element from the available ones |
| Permutations.ConsistentChoose | Algorithms/Backtracking/Permutations.java:43-48 | choosing an unused index keeps the markers in step with `current` |
| Permutations.PermsSound | Algorithms/Backtracking/Permutations.java:37-52 | every recorded list extends `current` to a rearrangement of all of `nums` |
| Permutations.PermsFromSound | Algorithms/Backtracking/Permutations.java:42-50 | every list of the loop from `i` is such a rearrangement whose next element comes from `nums[i..]` |
| Permutations.PermsCount | Algorithms/Backtracking/Permutations.java:37-52 | with `k` unused indices, `k!` lists are recorded |
| Permutations.PermsFromCount | Algorithms/Backtracking/Permutations.java:42-50 | each unused index from `i` on contributes `(k - 1)!` lists |
| Permutations.PermsDistinct | Algorithms/Backtracking/Permutations.java:37-52 | for duplicate-free `nums` no list is recorded twice |
| Permutations.PermsFromDistinct | Algorithms/Backtracking/Permutations.java:42-50 | the loop from `i` records no list twice |
| Permutations.UnusedHas | Algorithms/Backtracking/Permutations.java:42-43 | an element still available sits at an index the loop finds unused |
| Permutations.PermsComplete | Algorithms/Backtracking/Permutations.java:37-52 | every arrangement of all of `nums` that extends `current` is recorded, whatever repeats `nums` holds |
| Permutations.PermsFromReaches | Algorithms/Backtracking/Permutations.java:42-50 | the loop from `i` reaches every later unused index and records that iteration's lists |
| Permutations.AllUnused | Algorithms/Backtracking/Permutations.java:31-32 | with every marker `false`, all elements are available |
| Permutations.PermutationSearch.constructor | Algorithms/Backtracking/Permutations.java:29-32 | `used` is a new all-`false` array as long as `nums`, the builder and result are empty |
| Permutations.PermutationSearch.Backtrack | Algorithms/Backtracking/Permutations.java:37-52 | `current` and `used` are restored and `result` grows by exactly the lists `Perms` describes |
| Permutations.Permute | Algorithms/Backtracking/Permutations.java:28-35 | n! lists, exactly the rearrangements of all of `nums` (every one is recorded, with repeats for repeated values), pairwise distinct when `nums` is; `[[]]` for empty input |
| CombinationSum.Combos | Algorithms/Backtracking/CombinationSum.java:33-49 | the lists `backtrack` appends: a snapshot at remainder 0 without returning, nothing below 0, otherwise the loop's lists; the candidates are not read below 0 |
| CombinationSum.CombosFrom | Algorithms/Backtracking/CombinationSum.java:44-48 | the lists of loop iterations `i..n-1`: each appends `candidates[i]` and searches again from `i` |
| CombinationSum.CombosSound | Algorithms/Backtracking/CombinationSum.java:33-49 | every recorded list extends `current` by candidates taken at non-decreasing indices and adds exactly the remainder |
| CombinationSum.CombosFromSound | Algorithms/Backtracking/CombinationSum.java:44-48 | the same for the loop from `i`, with indices from `i` on |
| CombinationSum.ChosenSumPositive | Algorithms/Backtracking/CombinationSum.java:40-46 | a non-empty choice of positive candidates has a positive sum |
| CombinationSum.CombosComplete | Algorithms/Backtracking/CombinationSum.java:33-49 | every choice from `index` on that adds up to the remainder, appended to `current`, is recorded |
| CombinationSum.CombosFromComplete | Algorithms/Backtracking/CombinationSum.java:44-48 | every non-empty such choice from `i` on is recorded by the loop from `i` |
| CombinationSum.ZeroRemainder | Algorithms/Backtracking/CombinationSum.java:36-48 | at remainder 0 exactly `current` is recorded, although the loop still runs |
| CombinationSum.NoChildAtZero | Algorithms/Backtracking/CombinationSum.java:44-48 | at remainder 0 no child call records anything |
| CombinationSum.ChosenHead | Algorithms/Backtracking/CombinationSum.java:44-46 | a non-empty choice from index `k` on starts with a candidate at some index `j >= k` |
| CombinationSum.CombosDistinct | Algorithms/Backtracking/CombinationSum.java:33-49 | for positive candidates without repeated values no list is recorded twice |
| CombinationSum.CombosFromDistinct | Algorithms/Backtracking/CombinationSum.java:44-48 | iteration `i` continues `current` with `candidates[i]` and later iterations with later candidates, so the loop records no list twice |
| CombinationSum.CombinationSearch.constructor | Algorithms/Backtracking/CombinationSum.java:27-28 | the search starts with empty `result` and `current` |
| CombinationSum.CombinationSearch.Backtrack | Algorithms/Backtracking/CombinationSum.java:33-49 | `current` is restored and `result` grows by exactly the lists `Combos` describes |
| CombinationSum.CombinationSum | Algorithms/Backtracking/CombinationSum.java:26-31 | a negative target gives no list for any candidates; for positive candidates the recorded lists are exactly the choices, reuse allowed, that add up to `target`, each once when the candidates have no repeated values, and `[[]]` at 0 |
| CombinationSumTwo.Insert | DataStructure/Backtracking/CombinationSumTwo.java:12 | insertion into a sorted sequence, one step of the reference sort; one element longer |
| CombinationSumTwo.SortSeq | DataStructure/Backtracking/CombinationSumTwo.java:12 | the reference sort that `Arrays.sort` is measured against; as long as its input |
| CombinationSumTwo.InsertElements | DataStructure/Backtracking/CombinationSumTwo.java:12 | inserting adds exactly one element to the multiset |
| CombinationSumTwo.InsertSorted | DataStructure/Backtracking/CombinationSumTwo.java:12 | inserting into a sorted sequence keeps it sorted |
| CombinationSumTwo.SortSeqCorrect | DataStructure/Backtracking/CombinationSumTwo.java:12 | the reference sort yields a sorted permutation of its input |
| CombinationSumTwo.SortInPlace | DataStructure/Backtracking/CombinationSumTwo.java:12 | `Arrays.sort`: the array ends up sorted, a permutation of its old contents |
| CombinationSumTwo.Combos | DataStructure/Backtracking/CombinationSumTwo.java:18-38 | the lists `backtrack` appends: a snapshot at remainder 0 without returning, nothing below 0, otherwise the loop's lists |
| CombinationSumTwo.Loop | DataStructure/Backtracking/CombinationSumTwo.java:29-37 | the lists of loop iterations from `i`: a repeat of the previous candidate is skipped, a candidate above the remainder ends the loop, otherwise the candidate is taken and the search goes on after it |
| CombinationSumTwo.CombosSound | DataStructure/Backtracking/CombinationSumTwo.java:18-38 | every recorded list extends `current` by a subsequence of `candidates[index..]`, each index at most once, adding exactly the remainder |
| CombinationSumTwo.LoopSound | DataStructure/Backtracking/CombinationSumTwo.java:29-37 | the same for the loop from `i`, with the skip and the early exit |
| CombinationSumTwo.TakenSound | DataStructure/Backtracking/CombinationSumTwo.java:34-36 | a list recorded after taking `candidates[i]` is sound for the loop at `i` |
| CombinationSumTwo.LoopHeadAbove | DataStructure/Backtracking/CombinationSumTwo.java:30-31 | on sorted candidates, past the first iteration each list continues with a value above the previous candidate |
| CombinationSumTwo.CombosDistinct | DataStructure/Backtracking/CombinationSumTwo.java:18-38 | on sorted candidates no list is recorded twice |
| CombinationSumTwo.LoopDistinct | DataStructure/Backtracking/CombinationSumTwo.java:29-37 | the loop from `i` records no list twice |
| CombinationSumTwo.SortedHeadAtMostSum | DataStructure/Backtracking/CombinationSumTwo.java:32-33 | a sorted list with a positive first element adds up to at least that element, so the early exit cuts off no solution |
| CombinationSumTwo.CombosComplete | DataStructure/Backtracking/CombinationSumTwo.java:18-38 | on sorted candidates and a remainder of at least 0, the skip and the early exit lose no solution, whatever the signs of the candidates |
| CombinationSumTwo.LoopReaches | DataStructure/Backtracking/CombinationSumTwo.java:29-37 | an iteration that is neither skipped nor cut off by the early exit is reached, and its lists are recorded |
| CombinationSumTwo.CombinationSearch.constructor | DataStructure/Backtracking/CombinationSumTwo.java:10-11 | the search starts with empty `result` and `current` |
| CombinationSumTwo.CombinationSearch.Backtrack | DataStructure/Backtracking/CombinationSumTwo.java:18-38 | `current` is restored and `result` grows by exactly the lists `Combos` describes |
| CombinationSumTwo.CombinationSum2 | DataStructure/Backtracking/CombinationSumTwo.java:9-16 | candidates end up sorted; every list is a subsequence adding up to `target`, hence non-decreasing; no list twice; for a target of at least 0 every such subsequence is found; none for a negative target |
| PalindromePartitioning.MirroredIsPalindromic | DataStructure/Backtracking/PalindromePartitioning.java:65-76 | comparing each character with its mirror decides whether the string reads the same backwards |
| PalindromePartitioning.IsPalindrome | DataStructure/Backtracking/PalindromePartitioning.java:65-76 | `isPalindrome(s)` is true exactly when `s` reads the same backwards |
| PalindromePartitioning.Parts | DataStructure/Backtracking/PalindromePartitioning.java:48-63 | the lists `backtrack` appends: a snapshot once `start` reaches the end, otherwise the loop's lists |
| PalindromePartitioning.PartLoop | DataStructure/Backtracking/PalindromePartitioning.java:54-61 | the lists of loop iterations from `i`: a palindromic `s[start..i]` is taken and the search goes on after it |
| PalindromePartitioning.PartsSound | DataStructure/Backtracking/PalindromePartitioning.java:48-63 | every recorded list extends `current` by a partition of `s[index..]` into non-empty palindromes |
| PalindromePartitioning.PartLoopSound | DataStructure/Backtracking/PalindromePartitioning.java:54-61 | the same for the loop from `i`, whose first new part is longer than `i - index` |
| PalindromePartitioning.TakenSound | DataStructure/Backtracking/PalindromePartitioning.java:55-59 | a list recorded after taking the palindrome `s[index..i]` is sound for the loop at `i` |
| PalindromePartitioning.PartsComplete | DataStructure/Backtracking/PalindromePartitioning.java:48-63 | every partition of `s[index..]` into non-empty palindromes, appended to `current`, is recorded |
| PalindromePartitioning.PartitionOfEmpty | DataStructure/Backtracking/PalindromePartitioning.java:49-52 | the empty string has only the empty partition |
| PalindromePartitioning.PartLoopComplete | DataStructure/Backtracking/PalindromePartitioning.java:54-61 | an iteration whose substring is a palindrome is reached, and its lists are recorded |
| PalindromePartitioning.PartsDistinct | DataStructure/Backtracking/PalindromePartitioning.java:48-63 | no list is recorded twice |
| PalindromePartitioning.PartLoopDistinct | DataStructure/Backtracking/PalindromePartitioning.java:54-61 | lists of different iterations differ in the length of their first new part |
| PalindromePartitioning.SingletonsPartition | DataStructure/Backtracking/PalindromePartitioning.java:54-61 | cutting into single characters is always a palindrome partition |
| PalindromePartitioning.PartitionSearch.constructor | DataStructure/Backtracking/PalindromePartitioning.java:42-43 | the search starts with empty `result` and `current` |
| PalindromePartitioning.PartitionSearch.Backtrack | DataStructure/Backtracking/PalindromePartitioning.java:48-63 | `current` is restored and `result` grows by exactly the lists `Parts` describes |
| PalindromePartitioning.Partition | DataStructure/Backtracking/PalindromePartitioning.java:40-46 | exactly the partitions of `s` into non-empty palindromes, each once; the one-character partition is among them; `[[]]` for the empty string |
| GenerateParentheses.PrefixesBalancedIff | DataStructure/Backtracking/GenerateParentheses.java:41-43 | no prefix of the string closes more parentheses than it opens, in both directions |
| GenerateParentheses.OpenStep | DataStructure/Backtracking/GenerateParentheses.java:38-40 | adding `(` keeps the counts of `current` right |
| GenerateParentheses.CloseStep | DataStructure/Backtracking/GenerateParentheses.java:41-43 | adding `)` while some are unclosed keeps every prefix balanced |
| GenerateParentheses.Gen | DataStructure/Backtracking/GenerateParentheses.java:33-44 | the strings `backtrack` adds: `current` once it has length `2n`, otherwise the `(` branch while fewer than `n` are open, then the `)` branch while some are unclosed |
| GenerateParentheses.GenExtends | DataStructure/Backtracking/GenerateParentheses.java:33-44 | every generated string extends `current` and has length `2n` |
| GenerateParentheses.GenSound | DataStructure/Backtracking/GenerateParentheses.java:33-44 | every generated string is a balanced string of `n` pairs |
| GenerateParentheses.GenDistinct | DataStructure/Backtracking/GenerateParentheses.java:33-44 | no string is generated twice |
| GenerateParentheses.Branch | DataStructure/Backtracking/GenerateParentheses.java:38-43 | one branch generates distinct strings, all extending its own `current` |
| GenerateParentheses.BranchesDiffer | DataStructure/Backtracking/GenerateParentheses.java:38-43 | the `(` branch and the `)` branch share no string |
| GenerateParentheses.GenComplete | DataStructure/Backtracking/GenerateParentheses.java:33-44 | every balanced string of `n` pairs that extends `current` is generated |
| GenerateParentheses.InOpenBranch | DataStructure/Backtracking/GenerateParentheses.java:38-40 | what the `(` branch generates is generated |
| GenerateParentheses.InCloseBranch | DataStructure/Backtracking/GenerateParentheses.java:41-43 | what the `)` branch generates is generated |
| GenerateParentheses.NextStep | DataStructure/Backtracking/GenerateParentheses.java:38-43 | the next character of a balanced target is one the guards allow |
| GenerateParentheses.Generator.constructor | DataStructure/Backtracking/GenerateParentheses.java:28 | the generator starts with an empty `result` |
| GenerateParentheses.Generator.Backtrack | DataStructure/Backtracking/GenerateParentheses.java:33-44 | `result` grows by exactly the strings `Gen` describes |
| GenerateParentheses.GenerateParenthesis | DataStructure/Backtracking/GenerateParentheses.java:27-31 | exactly the balanced strings of `n` pairs, each once; `[""]` for 0, nothing for negative `n` |
| WordSearch.Search | Algorithms/Backtracking/WordSearch.java:19-33 | what `backtrack` returns: true at the end of the word; false off the board, on a marked cell or a wrong letter; otherwise the search down, up, right and left |
| WordSearch.Extend | Algorithms/Backtracking/WordSearch.java:26-30 | a path from a neighbour that avoids the cell extends to a path from the cell |
| WordSearch.SearchSound | Algorithms/Backtracking/WordSearch.java:19-33 | a successful search has a path of distinct, side-by-side cells spelling the rest of the word |
| WordSearch.Shorten | Algorithms/Backtracking/WordSearch.java:26-30 | dropping a path's first cell leaves a path from its second cell |
| WordSearch.SearchComplete | Algorithms/Backtracking/WordSearch.java:19-33 | whenever such a path exists, the search succeeds |
| WordSearch.Backtrack | Algorithms/Backtracking/WordSearch.java:19-33 | the result is the search outcome for the marked cells, and every `visited` mark is as before on return |
| WordSearch.Exist | Algorithms/Backtracking/WordSearch.java:5-17 | true exactly when some path of distinct, side-by-side cells spells the word; for the empty word, true exactly when the board has a cell |
| LengthOfLongestSubstring.LongestUnique | DataStructure/Arrays/TwoPointers/LengthOfLongestSubstring.java:8-26 | the longest repeat-free length is well defined |
| LengthOfLongestSubstring.LongestBounds | DataStructure/Arrays/TwoPointers/LengthOfLongestSubstring.java:8-26 | that length lies between 0 and `|s|` and is 0 exactly for the empty string |
| Common.Max | DataStructure/Arrays/TwoPointers/LengthOfLongestSubstring.java:18 | `Math.max` is one of its arguments and at least both |
| LengthOfLongestSubstring.LengthOfLongestSubstring | DataStructure/Arrays/TwoPointers/LengthOfLongestSubstring.java:8-26 | the set-backed window returns the length of a longest substring without a repeated character |
| LengthOfLongestSubstring.LastBefore | DataStructure/Arrays/TwoPointers/LengthOfLongestSubstring.java:32-42 | the last position before `end` holding the character, or -1 |
| LengthOfLongestSubstring.LengthOfLongestSubstringEfficient | DataStructure/Arrays/TwoPointers/LengthOfLongestSubstring.java:30-46 | the `lastSeen` version returns the same longest length |
| LengthOfLongestSubstring.LastBeforeStep | DataStructure/Arrays/TwoPointers/LengthOfLongestSubstring.java:42 | `lastSeen[current] = end` updates exactly that character's last position |
| LengthOfLongestSubstring.LongestStep | DataStructure/Arrays/TwoPointers/LengthOfLongestSubstring.java:43 | the maximum stays a bound on every repeat-free window seen so far |
| LengthOfLongestSubstring.WindowStep | DataStructure/Arrays/TwoPointers/LengthOfLongestSubstring.java:38-41 | moving `start` past the last repeat gives the longest repeat-free window ending at `end` |
| LongestSubStringWithoutRepeating.LengthOfLongestSubstring | DataStructure/SlidingWindow/LongestSubStringWithoutRepeating.java:7-25 | returns the longest repeat-free length, between 0 and `|s|`, after `|s|` to `2|s|` window moves |
| AddTwoNumbers.ListNode | DSA/LinkedLists/AddTwoNumbers.java:5-15 | a list node: a digit and a link that may be `null` |
| AddTwoNumbers.ListNode.constructor | DSA/LinkedLists/AddTwoNumbers.java:10-13 | a new node holds the digit and ends the list |
| AddTwoNumbers.DigitsRest | DSA/LinkedLists/AddTwoNumbers.java:24-25 | the digit read from a decimal list is a decimal digit, and the rest is decimal too |
| AddTwoNumbers.AddDigits | DSA/LinkedLists/AddTwoNumbers.java:23-34 | the digits the loop writes: column by column, 0 for an exhausted list, until both lists and the carry are spent |
| AddTwoNumbers.Writes | DSA/LinkedLists/AddTwoNumbers.java:23-34 | from a loop state (positions in both lists, carry, digits written so far) the loop writes the rest of a given digit sequence |
| AddTwoNumbers.AddDigitsCons | DSA/LinkedLists/AddTwoNumbers.java:23-34 | while something is left to add, one column writes its digit and goes on with the next carry |
| AddTwoNumbers.ColumnValue | DSA/LinkedLists/AddTwoNumbers.java:26-28 | one column keeps the value: digit plus ten times the rest and the carry |
| AddTwoNumbers.AddDigitsValue | DSA/LinkedLists/AddTwoNumbers.java:23-34 | the written digits stand for the sum of both numbers and the carry |
| AddTwoNumbers.DecimalColumn | DSA/LinkedLists/AddTwoNumbers.java:26-28 | two digits and a carry of 0 or 1 give a digit and a carry of 0 or 1 |
| AddTwoNumbers.AddDigitsDecimal | DSA/LinkedLists/AddTwoNumbers.java:23-34 | on decimal inputs every written digit is decimal |
| AddTwoNumbers.AddDigitsLength | DSA/LinkedLists/AddTwoNumbers.java:23-34 | the result is as long as the longer input, plus one digit exactly when the sum reaches the next power of ten |
| AddTwoNumbers.LengthColumn | DSA/LinkedLists/AddTwoNumbers.java:23-34 | one more column adds one digit and one decimal place to that length |
| AddTwoNumbers.WritesStep | DSA/LinkedLists/AddTwoNumbers.java:24-33 | one turn of the loop writes the digit of the column sum and carries the rest |
| AddTwoNumbers.WritesCons | DSA/LinkedLists/AddTwoNumbers.java:24-33 | conversely, that digit followed by what the next state writes is what this state writes |
| AddTwoNumbers.AddDigitsWrites | DSA/LinkedLists/AddTwoNumbers.java:23-34 | from any state the loop writes the digits `AddDigits` gives for the rest of both lists |
| AddTwoNumbers.SumFacts | DSA/LinkedLists/AddTwoNumbers.java:17-37 | the written digits stand for the sum of the inputs; on decimal inputs they are decimal and of the expected length |
| AddTwoNumbers.ResultList | DSA/LinkedLists/AddTwoNumbers.java:36 | `dummyNode.next` heads a list holding all the written digits |
| AddTwoNumbers.Link | DSA/LinkedLists/AddTwoNumbers.java:28-29 | `current.next = new ListNode(sum % 10)` grows the result by a new node and leaves the inputs linked as before |
| AddTwoNumbers.Step | DSA/LinkedLists/AddTwoNumbers.java:24-33 | one turn of the loop keeps every invariant, with both lists advanced unless exhausted, and makes progress |
| AddTwoNumbers.AddTwoNumbers | DSA/LinkedLists/AddTwoNumbers.java:17-37 | the result is a list of the digits of the sum; on decimal inputs they are decimal and of the expected length; `null` for two empty lists |
| RevereseInteger.DecimalDigits | DSA/Math/RevereseInteger.java:8-10 | the digits the loop peels off: decimal, none for 0, the most significant one nonzero |
| RevereseInteger.DigitsValue | DSA/Math/RevereseInteger.java:8-10 | the digits read back give the number |
| RevereseInteger.DigitsOfValue | DSA/Math/RevereseInteger.java:8-10 | conversely, a digit sequence without a leading zero is the digit sequence of its value |
| RevereseInteger.DigitsLength | DSA/Math/RevereseInteger.java:7 | a number below 10^k has at most `k` digits |
| RevereseInteger.LeadingDigit | DSA/Math/RevereseInteger.java:12 | a number is at least its leading digit times its weight |
| RevereseInteger.ReversedNat | DSA/Math/RevereseInteger.java:8-11 | the number whose decimal digits are those of `n` in reverse order |
| RevereseInteger.ReversedNatDigits | DSA/Math/RevereseInteger.java:8-10 | the reversal has no more digits than `n`, is 0 only for 0, and ends in the leading digit of `n` |
| RevereseInteger.ReversedNatStep | DSA/Math/RevereseInteger.java:9-10 | the last digit of `n` goes in front of the reversal of `n / 10` |
| RevereseInteger.ReversedNatInvolution | DSA/Math/RevereseInteger.java:8-11 | reversing twice gives back a number that does not end in 0 |
| RevereseInteger.Reversed | DSA/Math/RevereseInteger.java:7-11 | the reversal of the digits of `x` with the sign of `x`, the value the loop builds in `a` |
| RevereseInteger.ReversedSign | DSA/Math/RevereseInteger.java:9-10 | the reversal is positive, negative or zero as `x` is |
| RevereseInteger.ReversedStep | DSA/Math/RevereseInteger.java:9-10 | one iteration with Java's signed `% 10` and `/ 10` moves one digit across |
| RevereseInteger.ProgressStep | DSA/Math/RevereseInteger.java:8-11 | one iteration keeps the loop invariant and keeps `a` within the final reversal, hence within a `long` |
| RevereseInteger.ReversedBound | DSA/Math/RevereseInteger.java:7 | the reversal of an `int` is below 10^10 in magnitude, so the `long` never overflows |
| RevereseInteger.ReversedNotPow31 | DSA/Math/RevereseInteger.java:12-14 | no `int` reverses to 2^31, the one value above `Integer.MAX_VALUE` that the check lets through |
| RevereseInteger.ReversedInvolution | DSA/Math/RevereseInteger.java:8-11 | for `x % 10 != 0` reversing twice gives `x` back |
| RevereseInteger.Int32 | DSA/Math/RevereseInteger.java:14 | `(int) a`: the 32-bit value congruent to `a` modulo 2^32, equal to `a` when it fits |
| RevereseInteger.Outcome | DSA/Math/RevereseInteger.java:12-14 | for an `int` input, the check rejects exactly the reversals outside the `int` range |
| RevereseInteger.Reverse | DSA/Math/RevereseInteger.java:5-15 | the reversal when it fits in an `int`, else 0; 0 for 0; a nonzero result has the sign of `x` |

## Left out

- DataStructure/Backtracking/NQueens.java is not part of this model. Its legality check is cut off mid-expression, so the file does not compile.
- `Math.pow(-2, 31)` and `Math.pow(2, 31)` are modelled as the exact integers -2^31 and 2^31. The reversal stays below 10^10 < 2^53 in magnitude, so the `double` comparison is exact.
- Java `int` overflow is not modelled. Sums of candidates, remaining targets and column sums are unbounded integers. Only `reverse` models its 64-bit and 32-bit arithmetic.
- Java `List`s are modelled as sequences. The copies `new ArrayList<>(current)` are values, so aliasing between result lists and the builder is not modelled.
- Strings are sequences of Dafny characters. Java's UTF-16 code units and surrogate pairs are not modelled.
- CombinationSum.CombinationSum: for a target of 0 or more, requires every candidate to be positive. With a zero or negative candidate and such a target the source recurses until the stack overflows, and that behaviour is not modelled. A negative target is accepted for any candidates, and no list is recorded for it.
- CombinationSumTwo.CombinationSum2: completeness is stated only for a target of at least 0. A negative target records nothing, because `backtrack` returns at once below 0, so solutions such as `[-1]` for target -1 are not found.
- CombinationSumTwo.SortInPlace: the algorithm of `Arrays.sort` is not modelled. The array is overwritten with the reference insertion sort, and the sorted permutation of the old contents is unique.
- LengthOfLongestSubstring.LengthOfLongestSubstringEfficient: requires every character to be below 128. The source throws `ArrayIndexOutOfBoundsException` otherwise.
- LengthOfLongestSubstring.LengthOfLongestSubstring: the `HashSet<Character>` is a `set<char>`. Its hashing is not modelled.
- WordSearch.Exist: requires the board to have a row, because the source reads `board[0]`. The board is a rectangular `array2`, so ragged rows are not modelled.
- AddTwoNumbers.AddTwoNumbers: does not state that the result nodes are newly allocated. It states only that the inputs are unchanged, which follows from its empty `modifies` clause. Tracking the freshness of every result node was too costly to verify.
- AddTwoNumbers.ListNode: `val` is a constant. The source field is mutable, but only the constructor sets it.
- AddTwoNumbers.AddTwoNumbers: the nodes of each list are passed as a ghost sequence. The inputs are therefore acyclic, `null`-terminated lists; on a cyclic input the source would loop for ever.
