/** Six-pool balances, `value_balance.rs`. */
module ValueBalance {
  import opened Wrappers
  import A = Amount

  datatype ValueBalance = ValueBalance(
    transparent: int, sprout: int, sapling: int, orchard: int, deferred: int, ironwood: int)

  /** The pools, in the order in which operations check them. */
  datatype Pool = Transparent | Sprout | Sapling | Orchard | Deferred | Ironwood

  datatype Error = PoolError(pool: Pool, error: A.Error) | TotalError(error: A.Error) | Unparsable

  function Get(v: ValueBalance, p: Pool): int {
    match p
    case Transparent => v.transparent
    case Sprout => v.sprout
    case Sapling => v.sapling
    case Orchard => v.orchard
    case Deferred => v.deferred
    case Ironwood => v.ironwood
  }

  const ZERO := ValueBalance(0, 0, 0, 0, 0, 0)

  function Only(p: Pool, x: int): ValueBalance {
    match p
    case Transparent => ZERO.(transparent := x)
    case Sprout => ZERO.(sprout := x)
    case Sapling => ZERO.(sapling := x)
    case Orchard => ZERO.(orchard := x)
    case Deferred => ZERO.(deferred := x)
    case Ironwood => ZERO.(ironwood := x)
  }

  predicate InRange(c: A.Constraint, v: ValueBalance) {
    && A.InRange(c, v.transparent) && A.InRange(c, v.sprout) && A.InRange(c, v.sapling)
    && A.InRange(c, v.orchard) && A.InRange(c, v.deferred) && A.InRange(c, v.ironwood)
  }

  function At(p: Pool, r: Result<int, A.Error>): Result<int, Error> {
    match r
    case Ok(v) => Ok(v)
    case Err(e) => Err(PoolError(p, e))
  }

  function Add(c: A.Constraint, a: ValueBalance, b: ValueBalance): (r: Result<ValueBalance, Error>)
    requires InRange(c, a) && InRange(c, b)
    ensures r.Ok? ==> InRange(c, r.value)
  {
    var transparent :- At(Transparent, A.Add(c, a.transparent, b.transparent));
    var sprout :- At(Sprout, A.Add(c, a.sprout, b.sprout));
    var sapling :- At(Sapling, A.Add(c, a.sapling, b.sapling));
    var orchard :- At(Orchard, A.Add(c, a.orchard, b.orchard));
    var deferred :- At(Deferred, A.Add(c, a.deferred, b.deferred));
    var ironwood :- At(Ironwood, A.Add(c, a.ironwood, b.ironwood));
    Ok(ValueBalance(transparent, sprout, sapling, orchard, deferred, ironwood))
  }

  function Sub(c: A.Constraint, a: ValueBalance, b: ValueBalance): (r: Result<ValueBalance, Error>)
    requires InRange(c, a) && InRange(c, b)
    ensures r.Ok? ==> InRange(c, r.value)
  {
    var transparent :- At(Transparent, A.Sub(c, a.transparent, b.transparent));
    var sprout :- At(Sprout, A.Sub(c, a.sprout, b.sprout));
    var sapling :- At(Sapling, A.Sub(c, a.sapling, b.sapling));
    var orchard :- At(Orchard, A.Sub(c, a.orchard, b.orchard));
    var deferred :- At(Deferred, A.Sub(c, a.deferred, b.deferred));
    var ironwood :- At(Ironwood, A.Sub(c, a.ironwood, b.ironwood));
    Ok(ValueBalance(transparent, sprout, sapling, orchard, deferred, ironwood))
  }

  function Neg(c: A.Constraint, a: ValueBalance): (r: ValueBalance)
    requires InRange(c, a)
    ensures InRange(A.NegativeAllowed, r)
  {
    ValueBalance(A.Neg(c, a.transparent), A.Neg(c, a.sprout), A.Neg(c, a.sapling),
                 A.Neg(c, a.orchard), A.Neg(c, a.deferred), A.Neg(c, a.ironwood))
  }

  function Constrain(c: A.Constraint, a: ValueBalance): (r: Result<ValueBalance, Error>)
    ensures r.Ok? ==> InRange(c, r.value)
  {
    var transparent :- At(Transparent, A.Validate(c, a.transparent));
    var sprout :- At(Sprout, A.Validate(c, a.sprout));
    var sapling :- At(Sapling, A.Validate(c, a.sapling));
    var orchard :- At(Orchard, A.Validate(c, a.orchard));
    var deferred :- At(Deferred, A.Validate(c, a.deferred));
    var ironwood :- At(Ironwood, A.Validate(c, a.ironwood));
    Ok(ValueBalance(transparent, sprout, sapling, orchard, deferred, ironwood))
  }

  /** The sum of all pools, taken in 128 bits and only then put in range. */
  function Total(c: A.Constraint, a: ValueBalance): Result<int, A.Error>
    requires InRange(c, a)
  {
    A.FromI128(c, A.ExpectI128(IntTotal(a)))
  }

  function IntTotal(a: ValueBalance): int {
    a.transparent + a.sprout + a.sapling + a.orchard + a.deferred + a.ironwood
  }

  /** Slot-by-slot integer sum and difference, without ranges. */
  function Plus(a: ValueBalance, b: ValueBalance): ValueBalance {
    ValueBalance(a.transparent + b.transparent, a.sprout + b.sprout, a.sapling + b.sapling,
                 a.orchard + b.orchard, a.deferred + b.deferred, a.ironwood + b.ironwood)
  }

  function Minus(a: ValueBalance, b: ValueBalance): ValueBalance {
    ValueBalance(a.transparent - b.transparent, a.sprout - b.sprout, a.sapling - b.sapling,
                 a.orchard - b.orchard, a.deferred - b.deferred, a.ironwood - b.ironwood)
  }

  /** `p` is the first pool whose slot of `v` is out of range. */
  predicate FirstOutOfRange(c: A.Constraint, v: ValueBalance, p: Pool) {
    && !A.InRange(c, Get(v, p))
    && forall q: Pool :: Before(q, p) ==> A.InRange(c, Get(v, q))
  }

  predicate Before(p: Pool, q: Pool) {
    Index(p) < Index(q)
  }

  function Index(p: Pool): nat {
    match p
    case Transparent => 0
    case Sprout => 1
    case Sapling => 2
    case Orchard => 3
    case Deferred => 4
    case Ironwood => 5
  }

  function RangeError(c: A.Constraint, v: ValueBalance, p: Pool): Error {
    PoolError(p, A.OutOfRange(Get(v, p), A.Lo(c), A.Hi(c)))
  }

  /** Constraining is the identity on balances in range, and otherwise blames the first offending pool. */
  lemma ConstrainExact(c: A.Constraint, v: ValueBalance)
    ensures InRange(c, v) ==> Constrain(c, v) == Ok(v)
    ensures !InRange(c, v) ==>
              exists p :: FirstOutOfRange(c, v, p) && Constrain(c, v) == Err(RangeError(c, v, p))
  {
    if !A.InRange(c, v.transparent) { assert FirstOutOfRange(c, v, Transparent); }
    else if !A.InRange(c, v.sprout) { assert FirstOutOfRange(c, v, Sprout); }
    else if !A.InRange(c, v.sapling) { assert FirstOutOfRange(c, v, Sapling); }
    else if !A.InRange(c, v.orchard) { assert FirstOutOfRange(c, v, Orchard); }
    else if !A.InRange(c, v.deferred) { assert FirstOutOfRange(c, v, Deferred); }
    else if !A.InRange(c, v.ironwood) { assert FirstOutOfRange(c, v, Ironwood); }
  }

  /** Sums are the integer ones put in range: same successes, same first error. */
  lemma AddExact(c: A.Constraint, a: ValueBalance, b: ValueBalance)
    requires InRange(c, a) && InRange(c, b)
    ensures Add(c, a, b) == Constrain(c, Plus(a, b))
  {
    var v := Plus(a, b);
    assert A.Add(c, a.transparent, b.transparent) == A.Validate(c, v.transparent);
    assert A.Add(c, a.sprout, b.sprout) == A.Validate(c, v.sprout);
    assert A.Add(c, a.sapling, b.sapling) == A.Validate(c, v.sapling);
    assert A.Add(c, a.orchard, b.orchard) == A.Validate(c, v.orchard);
    assert A.Add(c, a.deferred, b.deferred) == A.Validate(c, v.deferred);
    assert A.Add(c, a.ironwood, b.ironwood) == A.Validate(c, v.ironwood);
  }

  /** And so are differences. */
  lemma SubExact(c: A.Constraint, a: ValueBalance, b: ValueBalance)
    requires InRange(c, a) && InRange(c, b)
    ensures Sub(c, a, b) == Constrain(c, Minus(a, b))
  {
    var v := Minus(a, b);
    assert A.Sub(c, a.transparent, b.transparent) == A.Validate(c, v.transparent);
    assert A.Sub(c, a.sprout, b.sprout) == A.Validate(c, v.sprout);
    assert A.Sub(c, a.sapling, b.sapling) == A.Validate(c, v.sapling);
    assert A.Sub(c, a.orchard, b.orchard) == A.Validate(c, v.orchard);
    assert A.Sub(c, a.deferred, b.deferred) == A.Validate(c, v.deferred);
    assert A.Sub(c, a.ironwood, b.ironwood) == A.Validate(c, v.ironwood);
  }

  // ----- sums

  /** Balances added one after the other from zero, up to the first error. */
  function Sum(c: A.Constraint, vs: seq<ValueBalance>): Result<ValueBalance, Error>
    requires AllInRange(c, vs)
    ensures Sum(c, vs).Ok? ==> InRange(c, Sum(c, vs).value)
    decreases |vs|
  {
    if vs == [] then Ok(ZERO)
    else
      var sum :- Sum(c, vs[..|vs| - 1]);
      Add(c, sum, vs[|vs| - 1])
  }

  predicate AllInRange(c: A.Constraint, vs: seq<ValueBalance>) {
    forall i :: 0 <= i < |vs| ==> InRange(c, vs[i])
  }

  /** The slot-by-slot integer sum. */
  function SumOf(vs: seq<ValueBalance>): ValueBalance {
    if vs == [] then ZERO else Plus(SumOf(vs[..|vs| - 1]), vs[|vs| - 1])
  }

  /** Every prefix sum is in range. */
  predicate PrefixesInRange(c: A.Constraint, vs: seq<ValueBalance>) {
    vs == [] || (PrefixesInRange(c, vs[..|vs| - 1]) && InRange(c, SumOf(vs)))
  }

  /** The first `n` balances are the first ones whose sum leaves the range, first of all in pool `p`. */
  ghost predicate FirstOverflow(c: A.Constraint, vs: seq<ValueBalance>, n: nat, p: Pool) {
    1 <= n <= |vs| && PrefixesInRange(c, vs[..n - 1]) && FirstOutOfRange(c, SumOf(vs[..n]), p)
  }

  /**
   A sum of balances succeeds exactly when every pool stays in range after every item, and is then the
   integer sum. Otherwise it names the first pool of the first prefix that leaves the range.
   */
  lemma {:induction false} SumExact(c: A.Constraint, vs: seq<ValueBalance>)
    requires AllInRange(c, vs)
    ensures Sum(c, vs).Ok? <==> PrefixesInRange(c, vs)
    ensures Sum(c, vs).Ok? ==> Sum(c, vs).value == SumOf(vs)
    ensures Sum(c, vs).Err? ==>
              exists n: nat, p :: FirstOverflow(c, vs, n, p) && Sum(c, vs).error == RangeError(c, SumOf(vs[..n]), p)
    decreases |vs|
  {
    if vs != [] {
      var init, last := vs[..|vs| - 1], vs[|vs| - 1];
      SumExact(c, init);
      if Sum(c, init).Ok? {
        AddExact(c, SumOf(init), last);
        ConstrainExact(c, SumOf(vs));
        if !InRange(c, SumOf(vs)) {
          var p :| FirstOutOfRange(c, SumOf(vs), p) && Sum(c, vs).error == RangeError(c, SumOf(vs), p);
          assert vs[..|vs|] == vs;
          assert FirstOverflow(c, vs, |vs|, p);
        }
      } else {
        var n: nat, p :| FirstOverflow(c, init, n, p) && Sum(c, init).error == RangeError(c, SumOf(init[..n]), p);
        assert vs[..n] == init[..n] && vs[..n - 1] == init[..n - 1];
        assert FirstOverflow(c, vs, n, p);
      }
    }
  }

  // ----- the chain pool

  /** A chain pool absorbs a change: no pool may become negative, and the total may not pass the cap. */
  function AddChainValuePoolChange(pool: ValueBalance, change: ValueBalance): Result<ValueBalance, Error>
    requires InRange(A.NonNegative, pool) && InRange(A.NegativeAllowed, change)
  {
    var wide := Constrain(A.NegativeAllowed, pool).value;
    var sum :- Add(A.NegativeAllowed, wide, change);
    var chain :- Constrain(A.NonNegative, sum);
    match Total(A.NonNegative, chain)
    case Ok(_) => Ok(chain)
    case Err(e) => Err(TotalError(e))
  }

  /** What a chain pool must be: every pool in `0..=MAX_MONEY`, and so their total. */
  predicate Acceptable(v: ValueBalance) {
    InRange(A.NonNegative, v) && IntTotal(v) <= A.MAX_MONEY
  }

  /** A change is accepted exactly when the integer sum is acceptable, and then gives that sum. */
  lemma PoolChangeExact(pool: ValueBalance, change: ValueBalance)
    requires InRange(A.NonNegative, pool) && InRange(A.NegativeAllowed, change)
    ensures AddChainValuePoolChange(pool, change).Ok? <==> Acceptable(Plus(pool, change))
    ensures AddChainValuePoolChange(pool, change).Ok? ==> AddChainValuePoolChange(pool, change).value == Plus(pool, change)
  {
    var v := Plus(pool, change);
    ConstrainExact(A.NegativeAllowed, pool);
    AddExact(A.NegativeAllowed, pool, change);
    ConstrainExact(A.NegativeAllowed, v);
    ConstrainExact(A.NonNegative, v);
  }

  /** Spelled out: which sums must lie in which range, and what each pool then holds. */
  lemma PoolChangeSpelled(pool: ValueBalance, change: ValueBalance)
    requires InRange(A.NonNegative, pool) && InRange(A.NegativeAllowed, change)
    ensures
      var t, sp, sa := pool.transparent + change.transparent, pool.sprout + change.sprout, pool.sapling + change.sapling;
      var o, d, i := pool.orchard + change.orchard, pool.deferred + change.deferred, pool.ironwood + change.ironwood;
      var r, cap := AddChainValuePoolChange(pool, change), 2_100_000_000_000_000;
      && (r.Ok? <==>
          && 0 <= t <= cap && 0 <= sp <= cap && 0 <= sa <= cap && 0 <= o <= cap && 0 <= d <= cap && 0 <= i <= cap
          && t + sp + sa + o + d + i <= cap)
      && (r.Ok? ==> r.value == ValueBalance(t, sp, sa, o, d, i))
  {
    PoolChangeExact(pool, change);
    hide AddChainValuePoolChange;
  }

  function RunChanges(pool: ValueBalance, changes: seq<ValueBalance>): Result<ValueBalance, Error>
    requires InRange(A.NonNegative, pool) && AllInRange(A.NegativeAllowed, changes)
    ensures RunChanges(pool, changes).Ok? ==> InRange(A.NonNegative, RunChanges(pool, changes).value)
    decreases |changes|
  {
    if changes == [] then Ok(pool)
    else
      var before :- RunChanges(pool, changes[..|changes| - 1]);
      PoolChangeExact(before, changes[|changes| - 1]);
      AddChainValuePoolChange(before, changes[|changes| - 1])
  }

  /** After each of the first `n` changes, the start plus the changes so far is acceptable. */
  ghost predicate AcceptableThrough(pool: ValueBalance, changes: seq<ValueBalance>, n: nat)
    requires n <= |changes|
  {
    forall k :: 1 <= k <= n ==> Acceptable(Plus(pool, SumOf(changes[..k])))
  }

  lemma ThroughSnoc(pool: ValueBalance, changes: seq<ValueBalance>)
    requires changes != []
    ensures
      var init := changes[..|changes| - 1];
      AcceptableThrough(pool, changes, |changes|) <==>
      AcceptableThrough(pool, init, |init|) && Acceptable(Plus(pool, SumOf(changes)))
  {
    var init := changes[..|changes| - 1];
    forall k | 1 <= k <= |init| ensures changes[..k] == init[..k] {}
    assert changes[..|changes|] == changes;
    if AcceptableThrough(pool, changes, |changes|) {
      forall k | 1 <= k <= |init| ensures Acceptable(Plus(pool, SumOf(init[..k]))) {
        assert Acceptable(Plus(pool, SumOf(changes[..k])));
      }
    }
  }

  /**
   Over any run of changes: the run is accepted exactly when after every one of them the start plus the
   changes so far is acceptable, and the final pool is the start plus the sum of all changes.
   */
  lemma {:induction false} RunChangesExact(pool: ValueBalance, changes: seq<ValueBalance>)
    requires InRange(A.NonNegative, pool) && AllInRange(A.NegativeAllowed, changes)
    ensures RunChanges(pool, changes).Ok? <==> AcceptableThrough(pool, changes, |changes|)
    ensures RunChanges(pool, changes).Ok? ==> RunChanges(pool, changes).value == Plus(pool, SumOf(changes))
    decreases |changes|
  {
    if changes != [] {
      var init, last := changes[..|changes| - 1], changes[|changes| - 1];
      RunChangesExact(pool, init);
      ThroughSnoc(pool, changes);
      assert Plus(pool, SumOf(changes)) == Plus(Plus(pool, SumOf(init)), last);
      if RunChanges(pool, init).Ok? {
        PoolChangeExact(RunChanges(pool, init).value, last);
      }
    }
  }

  // ----- the remaining value of a transaction

  /** Added pool by pool, each partial sum put in range, and only the result required to be non-negative. */
  function RemainingTransactionValue(v: ValueBalance): Result<int, A.Error>
    requires InRange(A.NegativeAllowed, v)
  {
    var s1 :- A.Add(A.NegativeAllowed, v.transparent, v.sprout);
    var s2 :- A.Add(A.NegativeAllowed, s1, v.sapling);
    var s3 :- A.Add(A.NegativeAllowed, s2, v.orchard);
    var s4 :- A.Add(A.NegativeAllowed, s3, v.ironwood);
    A.Validate(A.NonNegative, s4)
  }

  function FivePools(v: ValueBalance): int {
    v.transparent + v.sprout + v.sapling + v.orchard + v.ironwood
  }

  /**
   The consensus rule asks only that the five pools sum to a non-negative amount. The code meets it
   exactly when no partial sum leaves the signed range on the way.
   */
  lemma RemainingExact(v: ValueBalance)
    requires InRange(A.NegativeAllowed, v)
    ensures
      var ruleHolds := A.InRange(A.NonNegative, FivePools(v));
      var noDetour := && A.InRange(A.NegativeAllowed, v.transparent + v.sprout)
                      && A.InRange(A.NegativeAllowed, v.transparent + v.sprout + v.sapling)
                      && A.InRange(A.NegativeAllowed, v.transparent + v.sprout + v.sapling + v.orchard);
      && (RemainingTransactionValue(v).Ok? <==> ruleHolds && noDetour)
      && (RemainingTransactionValue(v).Ok? ==> RemainingTransactionValue(v).value == FivePools(v))
  {
  }

  /** A balance that meets the rule and is refused: two full inputs and one full shielded output. */
  lemma RemainingRefusesDetour()
    ensures
      var v := ValueBalance(A.MAX_MONEY, A.MAX_MONEY, -A.MAX_MONEY, 0, 0, 0);
      && FivePools(v) == A.MAX_MONEY
      && RemainingTransactionValue(v) == Err(A.OutOfRange(2 * A.MAX_MONEY, -A.MAX_MONEY, A.MAX_MONEY))
  {
  }
}
