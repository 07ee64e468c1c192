/** Definitions shared by the exercise models: powers, factorial, sums,
    sortedness, duplicate-freedom, subsequences and little-endian digit values. */
module Common {

  function Pow2(n: nat): (r: nat)
    ensures r >= 1
  {
    if n == 0 then 1 else 2 * Pow2(n - 1)
  }

  function Pow10(n: nat): (r: nat)
    ensures r >= 1
  {
    if n == 0 then 1 else 10 * Pow10(n - 1)
  }

  function Abs(a: int): nat
  {
    if a < 0 then -a else a
  }

  /** Java's `a / 10` on integers: the quotient is truncated toward zero,
      unlike Dafny's Euclidean `/`. */
  function JavaDiv10(a: int): (q: int)
    ensures Abs(q) <= Abs(a) && (a != 0 ==> Abs(q) < Abs(a))
    ensures (a >= 0 ==> q >= 0) && (a <= 0 ==> q <= 0)
  {
    if a >= 0 then a / 10 else -((-a) / 10)
  }

  /** Java's `a % 10`: the remainder takes the sign of `a`. */
  function JavaRem10(a: int): (r: int)
    ensures a == 10 * JavaDiv10(a) + r
    ensures -10 < r < 10 && (a >= 0 ==> r >= 0) && (a <= 0 ==> r <= 0)
  {
    a - 10 * JavaDiv10(a)
  }

  /** `Math.max`: the larger of the two. */
  function Max(a: int, b: int): (m: int)
    ensures m >= a && m >= b && (m == a || m == b)
  {
    if a >= b then a else b
  }

  function Factorial(n: nat): (r: nat)
    ensures r >= 1
  {
    if n == 0 then 1 else n * Factorial(n - 1)
  }

  function Sum(s: seq<int>): int
  {
    if s == [] then 0 else s[0] + Sum(s[1..])
  }

  /** Sum distributes over concatenation. */
  lemma {:induction false} SumAppend(a: seq<int>, b: seq<int>)
    ensures Sum(a + b) == Sum(a) + Sum(b)
  {
    if a == [] {
      assert a + b == b;
    } else {
      assert (a + b)[1..] == a[1..] + b;
      SumAppend(a[1..], b);
    }
  }

  /** Concatenation is associative; stated once so that proofs about
      accumulators can cite it instead of rediscovering it. */
  lemma AppendAssoc<T>(a: seq<T>, b: seq<T>, c: seq<T>)
    ensures (a + b) + c == a + (b + c)
  {
  }

  predicate Sorted(s: seq<int>)
  {
    forall i, j :: 0 <= i < j < |s| ==> s[i] <= s[j]
  }

  /** A sorted sequence stays sorted when a lower bound of it is put in front. */
  lemma SortedCons(x: int, s: seq<int>)
    requires Sorted(s) && forall y :: y in s ==> x <= y
    ensures Sorted([x] + s)
  {
    var u := [x] + s;
    forall i, j | 0 <= i < j < |u| ensures u[i] <= u[j] {
      if i > 0 {
        assert u[i] == s[i - 1] && u[j] == s[j - 1];
      } else {
        assert u[j] == s[j - 1] && s[j - 1] in s;
      }
    }
  }

  /** No element occurs twice. */
  predicate NoDuplicates<T(==)>(s: seq<T>)
  {
    forall i, j :: 0 <= i < j < |s| ==> s[i] != s[j]
  }

  lemma NoDuplicatesAppend<T>(a: seq<T>, b: seq<T>)
    requires NoDuplicates(a) && NoDuplicates(b)
    requires forall x :: x in a ==> x !in b
    ensures NoDuplicates(a + b)
  {
    forall i, j | 0 <= i < j < |a + b|
      ensures (a + b)[i] != (a + b)[j]
    {
      if j < |a| {
      } else if i < |a| {
        assert (a + b)[i] in a && (a + b)[j] in b;
      } else {
        assert (a + b)[i] == b[i - |a|] && (a + b)[j] == b[j - |a|];
      }
    }
  }

  /** `s` is made of elements of `c` taken at strictly increasing
      indices, all at least `k`. */
  predicate IsSubseqFrom(s: seq<int>, c: seq<int>, k: nat)
    decreases |c| - k
  {
    s == [] ||
    (k < |c| && ((s[0] == c[k] && IsSubseqFrom(s[1..], c, k + 1)) || IsSubseqFrom(s, c, k + 1)))
  }

  /** Allowing more indices keeps a subsequence a subsequence. */
  lemma {:induction false} IsSubseqFromWeaken(s: seq<int>, c: seq<int>, k: nat, k': nat)
    requires k <= k' && IsSubseqFrom(s, c, k')
    ensures IsSubseqFrom(s, c, k)
    decreases k' - k
  {
    if k < k' {
      if s != [] {
        assert IsSubseqFrom(s, c, k' - 1);
      }
      IsSubseqFromWeaken(s, c, k, k' - 1);
    }
  }

  /** The first element of a non-empty subsequence comes from `c[k..]`. */
  lemma {:induction false} IsSubseqFromHead(s: seq<int>, c: seq<int>, k: nat)
    requires s != [] && IsSubseqFrom(s, c, k)
    ensures k < |c| && s[0] in c[k..]
    decreases |c| - k
  {
    if IsSubseqFrom(s, c, k + 1) {
      IsSubseqFromHead(s, c, k + 1);
      assert c[k + 1..] == c[k..][1..];
    } else {
      assert c[k..][0] == c[k];
    }
  }

  /** A subsequence of a sorted sequence is sorted, and its elements are
      no smaller than c[k]. */
  lemma {:induction false} IsSubseqFromSorted(s: seq<int>, c: seq<int>, k: nat)
    requires Sorted(c) && IsSubseqFrom(s, c, k)
    ensures Sorted(s)
    ensures forall x :: x in s ==> k < |c| && c[k] <= x
    decreases |c| - k
  {
    if s != [] {
      if s[0] == c[k] && IsSubseqFrom(s[1..], c, k + 1) {
        IsSubseqFromSorted(s[1..], c, k + 1);
        forall i, j | 0 <= i < j < |s| ensures s[i] <= s[j] {
          if i == 0 {
            assert s[j] in s[1..];
          } else {
            assert s[i] == s[1..][i - 1] && s[j] == s[1..][j - 1];
          }
        }
      } else {
        IsSubseqFromSorted(s, c, k + 1);
      }
    }
  }

  /** The number whose little-endian base-10 digits are `ds`. */
  function LittleEndianValue(ds: seq<int>): int
  {
    if ds == [] then 0 else ds[0] + 10 * LittleEndianValue(ds[1..])
  }

  /** Appending a most significant digit adds it at weight 10^|ds|. */
  lemma {:induction false} LittleEndianAppend(ds: seq<int>, d: int)
    ensures LittleEndianValue(ds + [d]) == LittleEndianValue(ds) + d * Pow10(|ds|)
  {
    if ds == [] {
      assert [] + [d] == [d];
      assert [d][1..] == [];
    } else {
      assert (ds + [d])[1..] == ds[1..] + [d];
      LittleEndianAppend(ds[1..], d);
    }
  }

  /** Every entry of `ds` is a decimal digit. */
  predicate AllDigits(ds: seq<int>)
  {
    forall k :: 0 <= k < |ds| ==> 0 <= ds[k] <= 9
  }

  /** A number of `|ds|` decimal digits is below `10^|ds|`. */
  lemma {:induction false} DigitsBound(ds: seq<int>)
    requires AllDigits(ds)
    ensures 0 <= LittleEndianValue(ds) < Pow10(|ds|)
  {
    if |ds| > 0 {
      DigitsBound(ds[1..]);
    }
  }

  function Reverse<T>(s: seq<T>): (r: seq<T>)
    ensures |r| == |s|
  {
    if s == [] then [] else Reverse(s[1..]) + [s[0]]
  }

  lemma {:induction false} ReverseAt<T>(s: seq<T>, k: nat)
    requires k < |s|
    ensures Reverse(s)[k] == s[|s| - 1 - k]
  {
    if k < |s| - 1 {
      ReverseAt(s[1..], k);
    }
  }
}
