/** Range-checked amounts of zatoshis, `amount.rs`. An amount is its value; its constraint is a parameter. */
module Amount {
  import opened Wrappers

  const COIN: int := 100_000_000
  const MAX_MONEY: int := 21_000_000 * COIN

  datatype Constraint = NegativeAllowed | NonNegative | NegativeOrZero

  function Lo(c: Constraint): int {
    if c.NonNegative? then 0 else -MAX_MONEY
  }

  function Hi(c: Constraint): int {
    if c.NegativeOrZero? then 0 else MAX_MONEY
  }

  predicate InRange(c: Constraint, v: int) {
    Lo(c) <= v <= Hi(c)
  }

  datatype Error =
    | OutOfRange(value: int, lo: int, hi: int)
    | Convert(value: int)
    | MultiplicationOverflow(amount: int, multiplier: int, overflowing: int)
    | DivideByZero(amount: int)
    | SumOverflow(partialSum: int, remainingItems: nat)
    | Unreachable

  predicate IsI64(v: int) {
    -0x8000_0000_0000_0000 <= v < 0x8000_0000_0000_0000
  }

  predicate IsU64(v: int) {
    0 <= v < 0x1_0000_0000_0000_0000
  }

  predicate IsI128(v: int) {
    -0x8000_0000_0000_0000_0000_0000_0000_0000 <= v < 0x8000_0000_0000_0000_0000_0000_0000_0000
  }

  /** A checked 64-bit operation whose overflow would be a panic. */
  function ExpectI64(v: int): int
    requires IsI64(v)
  {
    v
  }

  function ExpectI128(v: int): int
    requires IsI128(v)
  {
    v
  }

  function Validate(c: Constraint, v: int): Result<int, Error> {
    if InRange(c, v) then Ok(v) else Err(OutOfRange(v, Lo(c), Hi(c)))
  }

  /** From a 128-bit integer: first into 64 bits, then into the range. */
  function FromI128(c: Constraint, v: int): Result<int, Error> {
    if IsI64(v) then Validate(c, v) else Err(Convert(v))
  }

  /** The three ranges in zatoshis, the error that names the range, and the one for what does not fit 64 bits. */
  lemma RangesExact(v: int)
    ensures Validate(NegativeAllowed, v) ==
            if -2_100_000_000_000_000 <= v <= 2_100_000_000_000_000 then Ok(v)
            else Err(OutOfRange(v, -2_100_000_000_000_000, 2_100_000_000_000_000))
    ensures Validate(NonNegative, v) ==
            if 0 <= v <= 2_100_000_000_000_000 then Ok(v) else Err(OutOfRange(v, 0, 2_100_000_000_000_000))
    ensures Validate(NegativeOrZero, v) ==
            if -2_100_000_000_000_000 <= v <= 0 then Ok(v) else Err(OutOfRange(v, -2_100_000_000_000_000, 0))
    ensures forall c :: FromI128(c, v) ==
                        if -9_223_372_036_854_775_808 <= v <= 9_223_372_036_854_775_807 then Validate(c, v) else Err(Convert(v))
  {
  }

  function Add(c: Constraint, a: int, b: int): Result<int, Error>
    requires InRange(c, a) && InRange(c, b)
  {
    Validate(c, ExpectI64(a + b))
  }

  function Sub(c: Constraint, a: int, b: int): Result<int, Error>
    requires InRange(c, a) && InRange(c, b)
  {
    Validate(c, ExpectI64(a - b))
  }

  /** Negation of any amount is a `NegativeAllowed` amount. */
  function Neg(c: Constraint, a: int): (r: int)
    requires InRange(c, a)
    ensures InRange(NegativeAllowed, r)
  {
    -a
  }

  // ----- products and quotients

  function Mul(c: Constraint, a: int, m: int): Result<int, Error>
    requires InRange(c, a) && IsU64(m)
  {
    ProductFitsI128(a, m);
    var value := ExpectI128(a * m);
    match FromI128(c, value)
    case Ok(v) => Ok(v)
    case Err(_) => Err(MultiplicationOverflow(a, m, value))
  }

  lemma ProductFitsI128(a: int, m: int)
    requires InRange(NegativeAllowed, a) && IsU64(m)
    ensures IsI128(a * m)
  {
    assert -MAX_MONEY * 0x1_0000_0000_0000_0000 <= a * m <= MAX_MONEY * 0x1_0000_0000_0000_0000 by {
      MulBound(a, m, MAX_MONEY, 0x1_0000_0000_0000_0000);
    }
  }

  lemma MulBound(a: int, m: int, x: int, y: int)
    requires -x <= a <= x && 0 <= m <= y
    ensures -x * y <= a * m <= x * y
  {
    assert a * m <= x * m && x * m <= x * y;
    assert -x * m <= a * m && -x * y <= -x * m;
  }

  /** Multiplication succeeds exactly when the integer product is in range, and the two error sources are one. */
  lemma MulExact(c: Constraint, a: int, m: int)
    requires InRange(c, a) && IsU64(m)
    ensures Mul(c, a, m) == if InRange(c, a * m) then Ok(a * m) else Err(MultiplicationOverflow(a, m, a * m))
  {
  }

  /** Division rounding toward zero. */
  function TruncDiv(a: int, d: int): int
    requires d != 0
  {
    if a >= 0 then (if d > 0 then a / d else -(a / -d))
    else (if d > 0 then -(-a / d) else -a / -d)
  }

  function Div(c: Constraint, a: int, d: int): Result<int, Error>
    requires InRange(c, a) && IsU64(d)
  {
    if d == 0 then Err(DivideByZero(a))
    else
      TruncDivShrinks(a, d);
      Ok(TruncDiv(a, d))
  }

  lemma TruncDivShrinks(a: int, d: int)
    requires d > 0
    ensures a >= 0 ==> 0 <= TruncDiv(a, d) <= a
    ensures a <= 0 ==> a <= TruncDiv(a, d) <= 0
    ensures a == TruncDiv(a, d) * d + (a - TruncDiv(a, d) * d)
    ensures -d < a - TruncDiv(a, d) * d < d && (a >= 0 ==> a - TruncDiv(a, d) * d >= 0) && (a <= 0 ==> a - TruncDiv(a, d) * d <= 0)
  {
    if a >= 0 {
      QuotientBound(a, d);
    } else {
      QuotientBound(-a, d);
    }
  }

  lemma MulAtLeast(q: int, d: int)
    requires d > 0
    ensures q >= 0 ==> q * d >= q
    ensures q >= 1 ==> q * d >= d
    ensures q <= -1 ==> q * d <= -d
    ensures q <= 0 ==> q * d <= 0
  {
    if q >= 0 {
      assert q * d >= q * 1;
    }
    if q >= 1 {
      assert q * d >= 1 * d;
    } else if q <= -1 {
      assert q * d <= -1 * d;
    }
  }

  lemma QuotientBound(a: int, d: int)
    requires d > 0 && a >= 0
    ensures 0 <= a / d <= a && a - a / d * d == a % d && 0 <= a % d < d
  {
    var q := a / d;
    assert a == q * d + a % d;
    MulAtLeast(q, d);
  }

  /**
   Division fails only for a zero divisor; otherwise the quotient stays within the constraint, and it is
   the one integer whose remainder is smaller than the divisor and has the sign of the amount.
   */
  lemma DivExactly(c: Constraint, a: int, d: int, q: int)
    requires InRange(c, a) && IsU64(d)
    ensures Div(c, a, d).Ok? <==> d != 0
    ensures Div(c, a, d).Ok? ==> InRange(c, Div(c, a, d).value)
    ensures d != 0 ==> (Div(c, a, d) == Ok(q) <==>
              -d < a - q * d < d && (a >= 0 ==> a - q * d >= 0) && (a <= 0 ==> a - q * d <= 0))
  {
    if d != 0 {
      TruncDivShrinks(a, d);
      var t := TruncDiv(a, d);
      if -d < a - q * d < d && (a >= 0 ==> a - q * d >= 0) && (a <= 0 ==> a - q * d <= 0) && a != 0 {
        assert (t - q) * d == (a - q * d) - (a - t * d);
        assert -d < (t - q) * d < d;
        MultipleBelow(t - q, d);
      } else if a == 0 && -d < -q * d < d {
        MultipleBelow(q, d);
      }
    }
  }

  lemma MultipleBelow(k: int, d: int)
    requires d > 0 && -d < k * d < d
    ensures k == 0
  {
    MulAtLeast(k, d);
  }

  /** `div_exact`; `None` is a panic. The divisor is any 64-bit integer. */
  function DivExact(a: int, d: int): Option<int>
    requires InRange(NonNegative, a) && IsI64(d)
  {
    if d == 0 then None
    else if a - TruncDiv(a, d) * d != 0 then None
    else Some(TruncDiv(a, d))
  }

  ghost predicate IsQuotient(a: int, d: int, q: int) {
    q * d == a
  }

  /** An exact division succeeds exactly when the divisor is not zero and divides the amount; it gives the quotient. */
  lemma DivExactExact(a: int, d: int)
    requires InRange(NonNegative, a) && IsI64(d)
    ensures DivExact(a, d).Some? <==> d != 0 && exists q :: IsQuotient(a, d, q)
    ensures DivExact(a, d).Some? ==> IsQuotient(a, d, DivExact(a, d).value)
  {
    if DivExact(a, d).Some? {
      assert IsQuotient(a, d, TruncDiv(a, d));
    }
    hide DivExact, TruncDiv;
    if d != 0 {
      forall q | IsQuotient(a, d, q) ensures DivExact(a, d).Some? { DivExactQuotient(a, d, q); }
    }
  }

  lemma DivExactQuotient(a: int, d: int, q: int)
    requires InRange(NonNegative, a) && IsI64(d) && d != 0 && q * d == a
    ensures DivExact(a, d) == Some(q)
  {
    if d > 0 {
      QuotientOf(a, d, q);
    } else {
      assert -q * -d == a;
      QuotientOf(a, -d, -q);
    }
    assert TruncDiv(a, d) == q;
  }

  lemma QuotientOf(a: int, d: int, q: int)
    requires d > 0 && a >= 0 && q * d == a
    ensures a / d == q
  {
    QuotientBound(a, d);
    var t := a / d;
    assert (q - t) * d == q * d - t * d;
    MultipleBelow(q - t, d);
  }

  /**
   An exact division gives back a `NonNegative` amount exactly when the divisor is positive or the amount
   is zero; the type claims it always.
   */
  lemma DivExactStaysInRange(a: int, d: int)
    requires InRange(NonNegative, a) && IsI64(d) && DivExact(a, d).Some?
    ensures DivExact(a, d).value * d == a
    ensures InRange(NonNegative, DivExact(a, d).value) <==> d > 0 || a == 0
  {
    var q := DivExact(a, d).value;
    if d > 0 {
      QuotientBound(a, d);
    } else {
      QuotientBound(a, -d);
      MulAtLeast(-q, -d);
      assert (-q) * (-d) == q * d;
    }
  }

  /** A negative divisor takes 4 zatoshis out of range. */
  lemma DivExactCounterexample()
    ensures DivExact(4, -2) == Some(-2) && !InRange(NonNegative, -2)
  {
  }

  // ----- sums

  /** `try_fold`: the sum, or the first error with the number of items not yet consumed. */
  datatype Folded = Done(sum: int) | Stopped(error: Error, remaining: nat)

  predicate AllInRange(c: Constraint, items: seq<int>) {
    forall i :: 0 <= i < |items| ==> InRange(c, items[i])
  }

  function Fold(c: Constraint, acc: int, items: seq<int>): Folded
    requires InRange(c, acc) && AllInRange(c, items)
    decreases |items|
  {
    if items == [] then Done(acc)
    else
      match Add(c, acc, items[0])
      case Ok(sum) => Fold(c, sum, items[1..])
      case Err(e) => Stopped(e, |items| - 1)
  }

  function Sum(c: Constraint, items: seq<int>): Result<int, Error>
    requires AllInRange(c, items)
  {
    match Fold(c, 0, items)
    case Done(sum) => Ok(sum)
    case Stopped(OutOfRange(value, _, _), remaining) => Err(SumOverflow(value, remaining))
    case Stopped(_, _) => Err(Unreachable)
  }

  /** The integer sum. */
  function Total(items: seq<int>): int {
    if items == [] then 0 else Total(items[..|items| - 1]) + items[|items| - 1]
  }

  /** The first `n` items are the first ones whose sum leaves the range. */
  ghost predicate FirstOverflow(c: Constraint, items: seq<int>, n: nat) {
    && n <= |items| && !InRange(c, Total(items[..n]))
    && forall k :: 0 <= k < n ==> InRange(c, Total(items[..k]))
  }

  lemma {:induction false} FoldFrom(c: Constraint, items: seq<int>, i: nat)
    requires AllInRange(c, items) && i <= |items|
    requires forall k :: 0 <= k <= i ==> InRange(c, Total(items[..k]))
    ensures
      match Fold(c, Total(items[..i]), items[i..]) {
        case Done(sum) => sum == Total(items) && forall k :: 0 <= k <= |items| ==> InRange(c, Total(items[..k]))
        case Stopped(e, rem) =>
          && rem < |items| && FirstOverflow(c, items, |items| - rem)
          && e == OutOfRange(Total(items[..|items| - rem]), Lo(c), Hi(c))
      }
    decreases |items| - i
  {
    if i == |items| {
      assert items[..i] == items;
    } else {
      var next := items[..i + 1];
      assert next[..i] == items[..i];
      assert Total(next) == Total(items[..i]) + items[i];
      assert items[i..][1..] == items[i + 1..];
      if InRange(c, Total(next)) {
        FoldFrom(c, items, i + 1);
      }
    }
  }

  /**
   A sum succeeds exactly when every prefix sum is in range, and is then the integer sum. Otherwise the
   error names the first prefix sum out of range and counts the items after it. No other error occurs.
   */
  lemma SumExact(c: Constraint, items: seq<int>)
    requires AllInRange(c, items)
    ensures Sum(c, items).Ok? <==> forall k :: 0 <= k <= |items| ==> InRange(c, Total(items[..k]))
    ensures Sum(c, items).Ok? ==> Sum(c, items).value == Total(items)
    ensures Sum(c, items).Err? ==>
              exists n: nat :: FirstOverflow(c, items, n) && Sum(c, items).error == SumOverflow(Total(items[..n]), |items| - n)
  {
    FoldFrom(c, items, 0);
    assert items[..0] == [] && items[0..] == items;
    match Fold(c, 0, items) {
      case Done(_) =>
      case Stopped(e, rem) =>
        assert FirstOverflow(c, items, |items| - rem);
    }
  }

  lemma {:induction false} PrefixBelowTotal(items: seq<int>, k: nat)
    requires AllInRange(NonNegative, items) && k <= |items|
    ensures 0 <= Total(items[..k]) <= Total(items)
    decreases |items|
  {
    if items == [] || k == |items| {
      assert items[..k] == items;
      if k > 0 { PrefixBelowTotal(items[..k - 1], k - 1); assert items[..k - 1][..k - 1] == items[..k - 1]; }
    } else {
      PrefixBelowTotal(items[..|items| - 1], k);
      assert items[..|items| - 1][..k] == items[..k];
    }
  }

  /** Without negative items, only the grand total matters. */
  lemma NonNegativeSum(items: seq<int>)
    requires AllInRange(NonNegative, items)
    ensures Sum(NonNegative, items).Ok? <==> Total(items) <= MAX_MONEY
    ensures Sum(NonNegative, items).Ok? ==> Sum(NonNegative, items).value == Total(items)
  {
    SumExact(NonNegative, items);
    forall k | 0 <= k <= |items| ensures 0 <= Total(items[..k]) <= Total(items) { PrefixBelowTotal(items, k); }
    assert items[..|items|] == items;
  }

  lemma {:induction false} TotalConcat(a: seq<int>, b: seq<int>)
    ensures Total(a + b) == Total(a) + Total(b)
    decreases |b|
  {
    if b == [] {
      assert a + b == a;
    } else {
      TotalConcat(a, b[..|b| - 1]);
      assert (a + b)[..|a + b| - 1] == a + b[..|b| - 1];
    }
  }

  lemma {:induction false} TotalPermuted(a: seq<int>, b: seq<int>)
    requires multiset(a) == multiset(b)
    ensures Total(a) == Total(b)
    decreases |a|
  {
    if a == [] {
      assert |multiset(b)| == 0;
    } else {
      var x, init := a[|a| - 1], a[..|a| - 1];
      assert a == init + [x];
      assert x in multiset(b);
      var i :| 0 <= i < |b| && b[i] == x;
      var rest := b[..i] + b[i + 1..];
      WithoutMultiset(b, i);
      WithoutTotal(b, i);
      SameAfterRemoval(multiset(init), multiset(rest), x);
      TotalPermuted(init, rest);
    }
  }

  lemma SameAfterRemoval(m: multiset<int>, n: multiset<int>, x: int)
    requires m + multiset{x} == n + multiset{x}
    ensures m == n
  {
    assert m == (m + multiset{x}) - multiset{x};
    assert n == (n + multiset{x}) - multiset{x};
  }

  lemma WithoutMultiset(b: seq<int>, i: nat)
    requires i < |b|
    ensures multiset(b) == multiset(b[..i] + b[i + 1..]) + multiset{b[i]}
  {
    assert b == b[..i] + [b[i]] + b[i + 1..];
  }

  lemma WithoutTotal(b: seq<int>, i: nat)
    requires i < |b|
    ensures Total(b) == Total(b[..i] + b[i + 1..]) + b[i]
  {
    hide Total;
    var before, x, after := b[..i], b[i], b[i + 1..];
    SplitAround(b, i);
    TotalConcat(before + [x], after);
    TotalSnoc(before, x);
    TotalConcat(before, after);
  }

  lemma SplitAround(b: seq<int>, i: nat)
    requires i < |b|
    ensures b[..i] + [b[i]] + b[i + 1..] == b
  {
  }

  lemma TotalSnoc(a: seq<int>, x: int)
    ensures Total(a + [x]) == Total(a) + x
  {
    assert (a + [x])[..|a|] == a;
  }

  /** The order of non-negative items does not matter. */
  lemma NonNegativeSumPermuted(a: seq<int>, b: seq<int>)
    requires AllInRange(NonNegative, a) && AllInRange(NonNegative, b) && multiset(a) == multiset(b)
    ensures Sum(NonNegative, a).Ok? <==> Sum(NonNegative, b).Ok?
    ensures Sum(NonNegative, a).Ok? ==> Sum(NonNegative, a) == Sum(NonNegative, b)
  {
    NonNegativeSum(a);
    NonNegativeSum(b);
    TotalPermuted(a, b);
  }

  /** The order of signed items does: the same three amounts sum up in one order and overflow in another. */
  lemma SignedOrderMatters(m: int)
    requires MAX_MONEY < 2 * m <= 2 * MAX_MONEY
    ensures multiset([m, -m, m]) == multiset([m, m, -m])
    ensures Sum(NegativeAllowed, [m, -m, m]) == Ok(m)
    ensures Sum(NegativeAllowed, [m, m, -m]) == Err(SumOverflow(2 * m, 1))
  {
    var good, bad := [m, -m, m], [m, m, -m];
    assert good[1..] == [-m, m] && [-m, m][1..] == [m] && [m][1..] == [];
    assert bad[1..] == [m, -m];
    assert Fold(NegativeAllowed, 0, [m]) == Done(m);
    assert Fold(NegativeAllowed, m, [-m, m]) == Done(m);
    assert Fold(NegativeAllowed, m, [m, -m]) == Stopped(OutOfRange(2 * m, -MAX_MONEY, MAX_MONEY), 1);
  }
}
