/** Bytes and the numbers they spell, in both byte orders. */
module Bytes {
  type Byte = n: nat | n < 256

  function AsciiByte(c: char): Byte
    requires c as int < 128
  {
    c as int
  }

  /** The bytes of a string of ASCII characters. */
  function Ascii(s: string): seq<Byte>
    requires forall i :: 0 <= i < |s| ==> s[i] as int < 128
  {
    seq(|s|, i requires 0 <= i < |s| => AsciiByte(s[i]))
  }

  function Pow256(k: nat): (r: nat)
    ensures r > 0
  {
    if k == 0 then 1 else 256 * Pow256(k - 1)
  }

  function Digits(n: nat, k: nat): (s: seq<Byte>)
    ensures |s| == k
  {
    if k == 0 then [] else [n % 256] + Digits(n / 256, k - 1)
  }

  function Number(s: seq<Byte>): nat {
    if s == [] then 0 else s[0] + 256 * Number(s[1..])
  }

  lemma {:induction false} NumberOfDigits(n: nat, k: nat)
    requires n < Pow256(k)
    ensures Number(Digits(n, k)) == n
  {
    if k > 0 {
      assert n / 256 < Pow256(k - 1);
      NumberOfDigits(n / 256, k - 1);
      assert Digits(n, k)[1..] == Digits(n / 256, k - 1);
    }
  }

  lemma {:induction false} DigitsOfNumber(s: seq<Byte>)
    ensures Number(s) < Pow256(|s|) && Digits(Number(s), |s|) == s
  {
    if s != [] {
      DigitsOfNumber(s[1..]);
      assert Number(s) % 256 == s[0] && Number(s) / 256 == Number(s[1..]);
    }
  }

  /** Byte `i` counts multiples of `256^i`. */
  lemma {:induction false} DigitAt(n: nat, k: nat, i: nat)
    requires i < k
    ensures Digits(n, k)[i] == n / Pow256(i) % 256
  {
    if i > 0 {
      DigitAt(n / 256, k - 1, i - 1);
      assert Digits(n, k)[i] == Digits(n / 256, k - 1)[i - 1];
      DivideTwice(n, 256, Pow256(i - 1));
    }
  }

  lemma DivideTwice(n: nat, a: nat, b: nat)
    requires a > 0 && b > 0
    ensures a * b > 0 && n / a / b == n / (a * b)
  {
    var m := n / a;
    var t, e, c := m / b, m % b, n % a;
    assert n == a * m + c;
    assert m == t * b + e;
    NestedSum(a, b, t, e, c);
    QuotientIs(n, a * b, t, a * e + c);
  }

  lemma NestedSum(a: nat, b: nat, t: nat, e: nat, c: nat)
    requires e < b && c < a
    ensures a * (t * b + e) + c == t * (a * b) + (a * e + c)
    ensures a * e + c < a * b
  {
    var u := t * b;
    assert a * (u + e) == a * u + a * e;
    Regroup(a, b, t);
    Multiples(a, e, b);
  }

  lemma Regroup(a: nat, b: nat, t: nat)
    ensures a * (t * b) == t * (a * b)
  {
  }

  lemma Multiples(a: nat, e: nat, b: nat)
    requires e < b
    ensures a * e + a <= a * b
  {
    assert a * (e + 1) == a * e + a;
    assert a * b == a * (e + 1) + a * (b - (e + 1));
  }

  lemma QuotientIs(n: nat, d: nat, t: nat, r: nat)
    requires d > 0 && n == t * d + r && r < d
    ensures n / d == t
  {
    var u := n / d;
    assert n == u * d + n % d;
    assert (u - t) * d == u * d - t * d && (t - u) * d == t * d - u * d;
    if u > t { AtLeast(u - t, d); } else if t > u { AtLeast(t - u, d); }
  }

  lemma AtLeast(k: nat, d: nat)
    requires k > 0
    ensures k * d >= d
  {
    assert k * d == (k - 1) * d + d;
  }

  // ----- most significant byte first

  function BigDigits(n: nat, k: nat): (s: seq<Byte>)
    ensures |s| == k
  {
    if k == 0 then [] else BigDigits(n / 256, k - 1) + [n % 256]
  }

  function BigNumber(s: seq<Byte>): nat {
    if s == [] then 0 else 256 * BigNumber(s[..|s| - 1]) + s[|s| - 1]
  }

  lemma {:induction false} BigNumberOfDigits(n: nat, k: nat)
    requires n < Pow256(k)
    ensures BigNumber(BigDigits(n, k)) == n
  {
    if k > 0 {
      assert n / 256 < Pow256(k - 1);
      BigNumberOfDigits(n / 256, k - 1);
      assert BigDigits(n, k)[..k - 1] == BigDigits(n / 256, k - 1);
    }
  }

  lemma {:induction false} BigDigitsOfNumber(s: seq<Byte>)
    ensures BigNumber(s) < Pow256(|s|) && BigDigits(BigNumber(s), |s|) == s
    decreases |s|
  {
    if s != [] {
      var init, last := s[..|s| - 1], s[|s| - 1];
      BigDigitsOfNumber(init);
      assert BigNumber(s) % 256 == last && BigNumber(s) / 256 == BigNumber(init);
      assert s == init + [last];
    }
  }

  function Reverse(s: seq<Byte>): (r: seq<Byte>)
    ensures |r| == |s|
  {
    if s == [] then [] else Reverse(s[1..]) + [s[0]]
  }

  lemma {:induction false} ReverseAt(s: seq<Byte>, k: nat)
    requires k < |s|
    ensures Reverse(s)[k] == s[|s| - 1 - k]
  {
    if k < |s| - 1 { ReverseAt(s[1..], k); }
  }

  lemma ReverseTwice(s: seq<Byte>)
    ensures Reverse(Reverse(s)) == s
  {
    forall k | 0 <= k < |s| ensures Reverse(Reverse(s))[k] == s[k] {
      ReverseAt(Reverse(s), k);
      ReverseAt(s, |s| - 1 - k);
    }
  }
}
