/** The byte form of amounts and value balances: little-endian two's complement, `amount.rs` and `value_balance.rs`. */
module Codec {
  import opened Bytes
  import opened Wrappers

  import A = Amount
  import VB = ValueBalance

  const TWO_64: int := 0x1_0000_0000_0000_0000
  const TWO_63: int := 0x8000_0000_0000_0000

  lemma EightBytes()
    ensures Pow256(8) == TWO_64
  {
    assert Pow256(4) == 0x1_0000_0000;
    assert Pow256(8) == 256 * 256 * 256 * 256 * Pow256(4);
  }

  function Unsigned(v: int): nat
    requires A.IsI64(v)
  {
    if v < 0 then v + TWO_64 else v
  }

  function Signed(n: nat): int {
    if n >= TWO_63 then n - TWO_64 else n
  }

  // ----- amounts

  function AmountBytes(v: int): (s: seq<Byte>)
    requires A.IsI64(v)
    ensures |s| == 8
  {
    Digits(Unsigned(v), 8)
  }

  /** Writes a number into a buffer, least significant byte first. */
  method WriteLittleEndian(buf: array<Byte>, n: nat)
    modifies buf
    ensures buf[..] == Digits(n, buf.Length)
  {
    var rest := n;
    for i := 0 to buf.Length
      invariant Digits(n, buf.Length) == buf[..i] + Digits(rest, buf.Length - i)
    {
      assert Digits(rest, buf.Length - i) == [rest % 256] + Digits(rest / 256, buf.Length - i - 1);
      ghost var done := buf[..i];
      buf[i] := rest % 256;
      assert buf[..i + 1] == done + [rest % 256];
      rest := rest / 256;
    }
    assert buf[..] == buf[..buf.Length];
  }

  method ToBytes(v: int) returns (bytes: seq<Byte>)
    requires A.InRange(A.NegativeAllowed, v)
    ensures bytes == AmountBytes(v)
  {
    var buf := new Byte[8](_ => 0);
    WriteLittleEndian(buf, Unsigned(v));
    bytes := buf[..];
  }

  function FromBytes(c: A.Constraint, bytes: seq<Byte>): Result<int, A.Error>
    requires |bytes| == 8
  {
    A.Validate(c, Signed(Number(bytes)))
  }

  /** The byte form and the 64-bit integers are the same set: each has one byte form, and each 8 bytes one integer. */
  lemma AmountRoundTrip(v: int)
    requires A.IsI64(v)
    ensures Signed(Number(AmountBytes(v))) == v
  {
    EightBytes();
    NumberOfDigits(Unsigned(v), 8);
  }

  lemma BytesRoundTrip(bytes: seq<Byte>)
    requires |bytes| == 8
    ensures A.IsI64(Signed(Number(bytes))) && AmountBytes(Signed(Number(bytes))) == bytes
  {
    EightBytes();
    DigitsOfNumber(bytes);
  }

  /** The bytes of an amount, spelled out: two's complement, least significant byte first. */
  lemma AmountByteAt(v: int, i: nat)
    requires A.IsI64(v) && i < 8
    ensures
      var n := if v >= 0 then v else 0x1_0000_0000_0000_0000 + v;
      AmountBytes(v)[i] == n / Pow256(i) % 256
  {
    DigitAt(Unsigned(v), 8, i);
  }

  // ----- value balances

  function BalanceBytes(v: VB.ValueBalance): (s: seq<Byte>)
    requires VB.InRange(A.NonNegative, v)
    ensures |s| == 48
  {
    AmountBytes(v.transparent) + AmountBytes(v.sprout) + AmountBytes(v.sapling)
    + AmountBytes(v.orchard) + AmountBytes(v.deferred) + AmountBytes(v.ironwood)
  }

  predicate IsRecordLength(n: nat) {
    n == 32 || n == 40 || n == 48
  }

  /** One pool of a record. */
  function Field(p: VB.Pool, bytes: seq<Byte>): Result<int, VB.Error>
    requires 8 * VB.Index(p) + 8 <= |bytes|
  {
    VB.At(p, FromBytes(A.NonNegative, bytes[8 * VB.Index(p)..8 * VB.Index(p) + 8]))
  }

  /** Records of 32 and 40 bytes come from versions without the last pools, which are then zero. */
  function BalanceFromBytes(bytes: seq<Byte>): Result<VB.ValueBalance, VB.Error> {
    if !IsRecordLength(|bytes|) then Err(VB.Unparsable)
    else
      var transparent :- Field(VB.Transparent, bytes);
      var sprout :- Field(VB.Sprout, bytes);
      var sapling :- Field(VB.Sapling, bytes);
      var orchard :- Field(VB.Orchard, bytes);
      var deferred :- if |bytes| == 32 then Ok(0) else Field(VB.Deferred, bytes);
      var ironwood :- if |bytes| < 48 then Ok(0) else Field(VB.Ironwood, bytes);
      Ok(VB.ValueBalance(transparent, sprout, sapling, orchard, deferred, ironwood))
  }

  /** The integer a record holds for a pool; a pool the record is too short for holds zero. */
  function Held(p: VB.Pool, bytes: seq<Byte>): int {
    var i := 8 * VB.Index(p);
    if i + 8 <= |bytes| then Signed(Number(bytes[i..i + 8])) else 0
  }

  function HeldBy(bytes: seq<Byte>): VB.ValueBalance {
    VB.ValueBalance(Held(VB.Transparent, bytes), Held(VB.Sprout, bytes), Held(VB.Sapling, bytes),
                    Held(VB.Orchard, bytes), Held(VB.Deferred, bytes), Held(VB.Ironwood, bytes))
  }

  /** Decoding a record of the right length is constraining the six integers it holds: same successes, same first error. */
  lemma DecodeExact(bytes: seq<Byte>)
    ensures BalanceFromBytes(bytes) ==
            if |bytes| == 32 || |bytes| == 40 || |bytes| == 48 then VB.Constrain(A.NonNegative, HeldBy(bytes))
            else Err(VB.Unparsable)
  {
    if IsRecordLength(|bytes|) {
      forall p: VB.Pool | 8 * VB.Index(p) + 8 <= |bytes|
        ensures Field(p, bytes) == VB.At(p, A.Validate(A.NonNegative, Held(p, bytes)))
      {
      }
    }
  }

  lemma PartOfSix(a: seq<Byte>, b: seq<Byte>, c: seq<Byte>, d: seq<Byte>, e: seq<Byte>, f: seq<Byte>, i: nat)
    requires |a| == |b| == |c| == |d| == |e| == |f| == 8 && i < 6
    ensures (a + b + c + d + e + f)[8 * i..8 * i + 8] == [a, b, c, d, e, f][i]
  {
    var s4, s5 := a + b + c + d, a + b + c + d + e;
    if i == 5 {
      SliceOfConcat(s5, f, 40, 48);
    } else if i == 4 {
      SliceOfConcat(s5, f, 32, 40);
      SliceOfConcat(s4, e, 32, 40);
    } else {
      SliceOfConcat(s5, f, 8 * i, 8 * i + 8);
      SliceOfConcat(s4, e, 8 * i, 8 * i + 8);
      PartOfFour(a, b, c, d, i);
    }
  }

  lemma PartOfFour(a: seq<Byte>, b: seq<Byte>, c: seq<Byte>, d: seq<Byte>, i: nat)
    requires |a| == |b| == |c| == |d| == 8 && i < 4
    ensures (a + b + c + d)[8 * i..8 * i + 8] == [a, b, c, d][i]
  {
  }

  lemma FieldOfBytes(v: VB.ValueBalance, p: VB.Pool)
    requires VB.InRange(A.NonNegative, v)
    ensures var i := 8 * VB.Index(p); BalanceBytes(v)[i..i + 8] == AmountBytes(VB.Get(v, p))
  {
    PartOfSix(AmountBytes(v.transparent), AmountBytes(v.sprout), AmountBytes(v.sapling),
              AmountBytes(v.orchard), AmountBytes(v.deferred), AmountBytes(v.ironwood), VB.Index(p));
    hide AmountBytes;
  }

  /** A balance without the pools that a record of `n` bytes has no room for. */
  function Truncated(v: VB.ValueBalance, n: nat): VB.ValueBalance {
    v.(deferred := if n < 40 then 0 else v.deferred, ironwood := if n < 48 then 0 else v.ironwood)
  }

  lemma SliceOfConcat(a: seq<Byte>, b: seq<Byte>, i: nat, j: nat)
    requires i <= j <= |a| + |b|
    ensures j <= |a| ==> (a + b)[i..j] == a[i..j]
    ensures |a| <= i ==> (a + b)[i..j] == b[i - |a|..j - |a|]
  {
  }

  lemma HeldByPrefix(v: VB.ValueBalance, n: nat, p: VB.Pool)
    requires VB.InRange(A.NonNegative, v) && IsRecordLength(n)
    ensures Held(p, BalanceBytes(v)[..n]) == VB.Get(Truncated(v, n), p)
  {
    var bytes, i := BalanceBytes(v), 8 * VB.Index(p);
    if i + 8 <= n {
      FieldOfBytes(v, p);
      AmountRoundTrip(VB.Get(v, p));
      SliceOfConcat(bytes[..n], bytes[n..], i, i + 8);
      assert bytes[..n] + bytes[n..] == bytes;
    }
  }

  /**
   Decoding what was encoded gives it back, and decoding a record cut down to an older version's length
   gives the balance without the pools that version did not have.
   */
  lemma PrefixRoundTrip(v: VB.ValueBalance, n: nat)
    requires VB.InRange(A.NonNegative, v) && (n == 32 || n == 40 || n == 48)
    ensures BalanceFromBytes(BalanceBytes(v)[..n])
            == Ok(v.(deferred := if n == 32 then 0 else v.deferred, ironwood := if n == 48 then v.ironwood else 0))
    ensures BalanceFromBytes(BalanceBytes(v)) == Ok(v)
  {
    var bytes := BalanceBytes(v);
    assert bytes[..48] == bytes;
    HeldIsTruncated(v, n);
    HeldIsTruncated(v, 48);
    DecodeExact(bytes[..n]);
    DecodeExact(bytes);
    VB.ConstrainExact(A.NonNegative, Truncated(v, n));
    VB.ConstrainExact(A.NonNegative, v);
  }

  lemma HeldIsTruncated(v: VB.ValueBalance, n: nat)
    requires VB.InRange(A.NonNegative, v) && IsRecordLength(n)
    ensures HeldBy(BalanceBytes(v)[..n]) == Truncated(v, n)
  {
    forall p: VB.Pool ensures Held(p, BalanceBytes(v)[..n]) == VB.Get(Truncated(v, n), p) { HeldByPrefix(v, n, p); }
    var w := Truncated(v, n);
    assert VB.Get(w, VB.Transparent) == w.transparent && VB.Get(w, VB.Sprout) == w.sprout && VB.Get(w, VB.Sapling) == w.sapling;
    assert VB.Get(w, VB.Orchard) == w.orchard && VB.Get(w, VB.Deferred) == w.deferred && VB.Get(w, VB.Ironwood) == w.ironwood;
  }

  function Zeros(n: nat): seq<Byte> {
    seq(n, _ => 0)
  }

  lemma ZeroBytes()
    ensures AmountBytes(0) == Zeros(8)
  {
    assert Digits(0, 4) == [0, 0, 0, 0];
    assert Digits(0, 8) == [0, 0, 0, 0] + Digits(0, 4);
  }

  /** Pool `p`'s part of a record, with the missing end of a short record taken as zeros. */
  lemma HeldBytes(p: VB.Pool, bytes: seq<Byte>)
    requires IsRecordLength(|bytes|)
    ensures A.IsI64(Held(p, bytes))
    ensures var i := 8 * VB.Index(p); AmountBytes(Held(p, bytes)) == (bytes + Zeros(48 - |bytes|))[i..i + 8]
  {
    var i := 8 * VB.Index(p);
    assert i + 8 <= |bytes| || |bytes| <= i <= 40;
    SliceOfConcat(bytes, Zeros(48 - |bytes|), i, i + 8);
    hide VB.Index, AmountBytes, IsRecordLength;
    if i + 8 <= |bytes| {
      BytesRoundTrip(bytes[i..i + 8]);
    } else {
      ZeroBytes();
      ZeroSlice(48 - |bytes|, i - |bytes|);
    }
  }

  lemma ZeroSlice(n: nat, i: nat)
    requires i + 8 <= n
    ensures Zeros(n)[i..i + 8] == Zeros(8)
  {
  }

  /** Whatever decodes encodes to itself, followed by zeros for the pools it did not have. */
  lemma AcceptedReencodes(bytes: seq<Byte>)
    requires BalanceFromBytes(bytes).Ok?
    ensures BalanceBytes(BalanceFromBytes(bytes).value) == bytes + Zeros(48 - |bytes|)
  {
    DecodeExact(bytes);
    VB.ConstrainExact(A.NonNegative, HeldBy(bytes));
    hide BalanceFromBytes, Held, Signed, Number, VB.InRange;
    HeldBytes(VB.Transparent, bytes);
    HeldBytes(VB.Sprout, bytes);
    HeldBytes(VB.Sapling, bytes);
    HeldBytes(VB.Orchard, bytes);
    HeldBytes(VB.Deferred, bytes);
    HeldBytes(VB.Ironwood, bytes);
    hide AmountBytes, Zeros, VB.Constrain;
    SixSlices(bytes + Zeros(48 - |bytes|));
  }

  lemma SixSlices(s: seq<Byte>)
    requires |s| == 48
    ensures s[0..8] + s[8..16] + s[16..24] + s[24..32] + s[32..40] + s[40..48] == s
  {
  }
}
