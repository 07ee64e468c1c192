/** DSA/Math/RevereseInteger.java: the decimal digits of a 32-bit integer
    in reverse order, with its sign, or 0 when that lies outside the
    range the method accepts. The reversal is built in a 64-bit `long`. */
module RevereseInteger {
  import opened Common

  /** `Integer.MIN_VALUE` and `Integer.MAX_VALUE`. */
  const IntMin: int := -0x8000_0000
  const IntMax: int := 0x7fff_ffff

  /** The range of a Java `long`. */
  predicate InLong(v: int)
  {
    -0x8000_0000_0000_0000 <= v < 0x8000_0000_0000_0000
  }

  /** The decimal digits of `n`, least significant first: none for 0, and
      the most significant one is never 0. */
  function DecimalDigits(n: nat): (ds: seq<int>)
    ensures AllDigits(ds)
    ensures ds == [] <==> n == 0
    ensures ds != [] ==> ds[|ds| - 1] != 0
  {
    if n == 0 then [] else [n % 10] + DecimalDigits(n / 10)
  }

  /** The digits read back give the number. */
  lemma {:induction false} DigitsValue(n: nat)
    ensures LittleEndianValue(DecimalDigits(n)) == n
  {
    if n > 0 {
      DigitsValue(n / 10);
      assert DecimalDigits(n)[1..] == DecimalDigits(n / 10);
    }
  }

  lemma DivMod10(d: int, b: int)
    requires 0 <= d <= 9
    ensures (d + 10 * b) % 10 == d && (d + 10 * b) / 10 == b
  {
  }

  /** Conversely, a digit sequence whose most significant digit is not 0
      is the digit sequence of its value. */
  lemma {:induction false} DigitsOfValue(ds: seq<int>)
    requires AllDigits(ds) && (ds != [] ==> ds[|ds| - 1] != 0)
    ensures LittleEndianValue(ds) >= 0
    ensures DecimalDigits(LittleEndianValue(ds)) == ds
  {
    DigitsBound(ds);
    if ds != [] {
      var rest := ds[1..];
      assert rest != [] ==> rest[|rest| - 1] == ds[|ds| - 1];
      DigitsOfValue(rest);
      DivMod10(ds[0], LittleEndianValue(rest));
      assert [ds[0]] + rest == ds;
    }
  }

  /** The number of decimal digits of `n` is at most `k` when `n < 10^k`. */
  lemma {:induction false} DigitsLength(n: nat, k: nat)
    requires n < Pow10(k)
    ensures |DecimalDigits(n)| <= k
  {
    if n > 0 {
      DigitsLength(n / 10, k - 1);
    }
  }

  /** A value is at least its most significant digit times its weight. */
  lemma {:induction false} LeadingDigit(ds: seq<int>)
    requires AllDigits(ds) && ds != []
    ensures LittleEndianValue(ds) >= ds[|ds| - 1] * Pow10(|ds| - 1)
  {
    var rest := ds[1..];
    DigitsBound(rest);
    if rest != [] {
      LeadingDigit(rest);
      var d, p := ds[|ds| - 1], Pow10(|rest| - 1);
      assert rest[|rest| - 1] == d;
      assert Pow10(|ds| - 1) == 10 * p;
      ScaleUp(LittleEndianValue(ds), ds[0], LittleEndianValue(rest), d, p);
    }
  }

  lemma ScaleUp(total: int, low: int, high: int, d: int, p: int)
    requires total == low + 10 * high && low >= 0 && high >= d * p
    ensures total >= d * (10 * p)
  {
  }

  lemma {:induction false} Pow10Monotonic(i: nat, j: nat)
    requires i <= j
    ensures Pow10(i) <= Pow10(j)
  {
    if i < j {
      Pow10Monotonic(i, j - 1);
    }
  }

  lemma ReverseAllDigits(ds: seq<int>)
    requires AllDigits(ds)
    ensures AllDigits(Common.Reverse(ds))
  {
    forall k | 0 <= k < |ds| ensures 0 <= Common.Reverse(ds)[k] <= 9 {
      ReverseAt(ds, k);
    }
  }

  lemma ReverseReverse<T>(s: seq<T>)
    ensures Common.Reverse(Common.Reverse(s)) == s
  {
    var r := Common.Reverse(s);
    forall k | 0 <= k < |s| ensures Common.Reverse(r)[k] == s[k] {
      ReverseAt(r, k);
      ReverseAt(s, |s| - 1 - k);
    }
  }

  /** The number whose decimal digits are those of `n` in reverse order;
      zeros that `n` ends with are lost. */
  function ReversedNat(n: nat): nat
  {
    var ds := Common.Reverse(DecimalDigits(n));
    ReverseAllDigits(DecimalDigits(n));
    DigitsBound(ds);
    LittleEndianValue(ds)
  }

  /** The reversal has as many digits as `n` at most, ends with the most
      significant digit of `n`, and is 0 only for 0. */
  lemma ReversedNatDigits(n: nat)
    ensures ReversedNat(n) < Pow10(|DecimalDigits(n)|)
    ensures n > 0 ==> ReversedNat(n) > 0
    ensures n > 0 ==> ReversedNat(n) % 10 == DecimalDigits(n)[|DecimalDigits(n)| - 1]
  {
    var ds := DecimalDigits(n);
    var rs := Common.Reverse(ds);
    ReverseAllDigits(ds);
    DigitsBound(rs);
    if n > 0 {
      ReverseAt(ds, 0);
      DigitsBound(rs[1..]);
      DivMod10(rs[0], LittleEndianValue(rs[1..]));
    }
  }

  /** One digit at a time: the last digit of `n` goes to the front of the
      reversal of `n / 10`. */
  lemma ReversedNatStep(n: nat, q: nat, d: int)
    requires n > 0 && q == n / 10 && d == n % 10
    ensures |DecimalDigits(n)| == |DecimalDigits(q)| + 1
    ensures ReversedNat(n) == ReversedNat(q) + d * Pow10(|DecimalDigits(q)|)
  {
    var ds := DecimalDigits(q);
    assert DecimalDigits(n) == [d] + ds;
    assert ([d] + ds)[1..] == ds;
    LittleEndianAppend(Common.Reverse(ds), d);
  }

  /** Reversing twice gives back a number that does not end in 0. */
  lemma ReversedNatInvolution(n: nat)
    requires n % 10 != 0
    ensures ReversedNat(ReversedNat(n)) == n
  {
    var ds := DecimalDigits(n);
    var rs := Common.Reverse(ds);
    ReverseAllDigits(ds);
    ReverseAt(ds, |ds| - 1);
    assert rs[|rs| - 1] == n % 10;
    DigitsOfValue(rs);
    assert ReversedNat(n) == LittleEndianValue(rs);
    ReverseReverse(ds);
    DigitsValue(n);
  }

  /** The number of decimal digits of `|x|`. */
  function Length(x: int): nat
  {
    |DecimalDigits(Abs(x))|
  }

  /** The reversal of `|x|` with the sign of `x`. */
  function Reversed(x: int): int
  {
    if x < 0 then -(ReversedNat(-x) as int) else ReversedNat(x)
  }

  /** The reversal has the sign of `x`. */
  lemma ReversedSign(x: int)
    ensures Reversed(x) > 0 <==> x > 0
    ensures Reversed(x) < 0 <==> x < 0
  {
    ReversedNatDigits(Abs(x));
  }

  /** One iteration: the last digit of `x` (Java's `x % 10`, which keeps
      the sign of `x`) goes to the front of the reversal of `x / 10`. */
  lemma ReversedStep(x: int)
    requires x != 0
    ensures Length(x) == Length(JavaDiv10(x)) + 1
    ensures Reversed(x) == Reversed(JavaDiv10(x)) + JavaRem10(x) * Pow10(Length(JavaDiv10(x)))
  {
    var n := Abs(x);
    var q: int, d: int := n / 10, n % 10;
    assert n == 10 * q + d;
    ReversedNatStep(n, q, d);
    var p := Pow10(|DecimalDigits(q)|);
    var xq := JavaDiv10(x);
    if x > 0 {
      assert xq == q && JavaRem10(x) == d;
      assert Reversed(xq) == ReversedNat(q);
    } else {
      assert xq == -q && JavaRem10(x) == -d;
      assert Reversed(xq) == -(ReversedNat(q) as int);
      assert Reversed(x) == -(ReversedNat(n) as int);
      Negate(d, p);
    }
    assert Abs(xq) == q;
  }

  lemma Negate(d: int, p: int)
    ensures (-d) * p == -(d * p)
  {
  }

  /** The loop keeps `Reversed(x0) == Reversed(x) + 10^Length(x) * a`, with
      `x` and `a` on the side of 0 that `x0` is on. */
  predicate Progress(x0: int, x: int, a: int)
  {
    Reversed(x0) == Reversed(x) + Pow10(Length(x)) * a &&
    (x0 >= 0 ==> x >= 0 && a >= 0) && (x0 <= 0 ==> x <= 0 && a <= 0)
  }

  /** One iteration keeps the loop invariant: `Progress`, and `|a|` at
      most the magnitude of the final reversal, so within a `long`. */
  lemma ProgressStep(x0: int, x: int, a: int)
    requires Progress(x0, x, a) && x != 0
    requires Abs(Reversed(x0)) < 10_000_000_000
    ensures Progress(x0, JavaDiv10(x), a * 10 + JavaRem10(x))
    ensures Abs(a * 10 + JavaRem10(x)) <= Abs(Reversed(x0)) && InLong(a * 10 + JavaRem10(x))
  {
    var q, d := JavaDiv10(x), JavaRem10(x);
    ReversedStep(x);
    ReversedSign(q);
    var len := Length(q);
    assert Pow10(len + 1) == 10 * Pow10(len);
    StepArith(x0, x, q, Reversed(x0), Reversed(x), Reversed(q), Pow10(len + 1), Pow10(len), a, d, a * 10 + d);
    StepBound(Reversed(x0), Reversed(q), Pow10(len), a * 10 + d);
  }

  /** The arithmetic of one iteration, on plain numbers: `total` is the
      final reversal, `rx` and `rq` the reversals of `x` and `x / 10`,
      `big` and `p` their weights. */
  lemma StepArith(x0: int, x: int, q: int, total: int, rx: int, rq: int, big: int, p: int,
                  a: int, d: int, next: int)
    requires total == rx + big * a && rx == rq + d * p && big == 10 * p
    requires next == a * 10 + d
    requires (x0 >= 0 ==> x >= 0 && a >= 0) && (x0 <= 0 ==> x <= 0 && a <= 0)
    requires (x >= 0 ==> q >= 0 && d >= 0) && (x <= 0 ==> q <= 0 && d <= 0)
    requires (rq > 0 <==> q > 0) && (rq < 0 <==> q < 0)
    ensures total == rq + p * next
    ensures (x0 >= 0 ==> q >= 0 && next >= 0) && (x0 <= 0 ==> q <= 0 && next <= 0)
    ensures (rq >= 0 && next >= 0) || (rq <= 0 && next <= 0)
  {
    assert big * a == p * (a * 10);
  }

  /** The new `a` is no larger than the final reversal. */
  lemma StepBound(total: int, rq: int, p: int, next: int)
    requires total == rq + p * next && p >= 1
    requires (rq >= 0 && next >= 0) || (rq <= 0 && next <= 0)
    requires Abs(total) < 10_000_000_000
    ensures Abs(next) <= Abs(total) && InLong(next)
  {
    if next >= 0 {
      assert p * next >= next;
    } else {
      assert p * next <= next;
    }
  }

  /** For a 32-bit `x` the reversal has at most ten digits, so it fits in
      the `long` the source builds it in. */
  lemma ReversedBound(x: int)
    requires IntMin <= x <= IntMax
    ensures Abs(Reversed(x)) < 10_000_000_000
  {
    Pow10Values();
    DigitsLength(Abs(x), 10);
    ReversedNatDigits(Abs(x));
    Pow10Monotonic(Length(x), 10);
  }

  /** No 32-bit `x` reverses to 2^31, the one value above
      `Integer.MAX_VALUE` that the range check lets through: a reversal
      that large needs ten digits, and the reversal of a ten-digit `int`
      ends in its leading digit, which is at most 2. */
  lemma ReversedNotPow31(x: int)
    requires IntMin <= x <= IntMax
    ensures Reversed(x) != 0x8000_0000
  {
    if x > 0 {
      var ds := DecimalDigits(x);
      Pow10Values();
      ReversedNatDigits(x);
      DigitsLength(x, 10);
      if |ds| == 10 {
        LeadingDigit(ds);
        DigitsValue(x);
        SmallLead(x, ds[9], Pow10(9));
      } else {
        Pow10Monotonic(|ds|, 9);
      }
    }
  }

  lemma Pow10Values()
    ensures Pow10(9) == 1_000_000_000 && Pow10(10) == 10_000_000_000
  {
  }

  lemma SmallLead(x: int, d: int, p: int)
    requires x <= IntMax && x >= d * p && p == 1_000_000_000 && 0 <= d
    ensures d <= 2
  {
  }

  /** Reversing undoes itself on numbers whose last digit (`x % 10` in
      Java) is not 0. */
  lemma ReversedInvolution(x: int)
    requires JavaRem10(x) != 0
    ensures Reversed(Reversed(x)) == x
  {
    var n := Abs(x);
    assert n % 10 != 0;
    ReversedNatInvolution(n);
    ReversedNatDigits(n);
  }

  /** Java's `(int)` cast of a `long`: the low 32 bits as a two's
      complement number. */
  function Int32(a: int): (r: int)
    ensures IntMin <= r <= IntMax
    ensures (r - a) % 0x1_0000_0000 == 0
    ensures IntMin <= a <= IntMax ==> r == a
  {
    (a - IntMin) % 0x1_0000_0000 + IntMin
  }

  /** What the range check makes of the reversal of a 32-bit `x`. */
  lemma Outcome(x: int, a: int)
    requires IntMin <= x <= IntMax && a == Reversed(x)
    ensures IntMin <= a <= IntMax ==> !(a < IntMin || a > 0x8000_0000)
    ensures !(IntMin <= a <= IntMax) ==> a < IntMin || a > 0x8000_0000
    ensures (a > 0 <==> x > 0) && (a < 0 <==> x < 0)
  {
    ReversedNotPow31(x);
    ReversedSign(x);
  }

  /** `reverse(x)`: `a` collects the digits of `x` from the least
      significant one; reversals below `Math.pow(-2, 31)` or above
      `Math.pow(2, 31)` give 0. */
  method Reverse(x: int) returns (r: int)
    requires IntMin <= x <= IntMax
    ensures r == if Reversed(x) < IntMin || Reversed(x) > 0x8000_0000 then 0 else Int32(Reversed(x))
    ensures IntMin <= Reversed(x) <= IntMax ==> r == Reversed(x)
    ensures !(IntMin <= Reversed(x) <= IntMax) ==> r == 0
    ensures x == 0 ==> r == 0
    ensures r != 0 ==> (r > 0 <==> x > 0)
  {
    ghost var x0 := x;
    var x := x;
    var a := 0;
    ReversedBound(x0);
    while x != 0
      invariant Progress(x0, x, a)
      invariant InLong(a) && Abs(a) <= Abs(Reversed(x0))
      decreases Abs(x)
    {
      ProgressStep(x0, x, a);
      a, x := a * 10 + JavaRem10(x), JavaDiv10(x);
    }
    Outcome(x0, a);
    if a < IntMin || a > 0x8000_0000 {
      return 0;
    }
    return Int32(a);
  }
}
