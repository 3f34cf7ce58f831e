/** How blocks change the chain value pools, `block.rs` and `value_balance.rs`. */
module Pools {
  import opened Wrappers
  import A = Amount
  import T = Transaction
  import VB = ValueBalance

  predicate AllCovered(txs: seq<T.Transaction>, utxos: T.Utxos) {
    forall i :: 0 <= i < |txs| ==> T.CoveredBy(txs[i], utxos)
  }

  /** The balances of a block's transactions, added in order up to the first failure. */
  function FoldBalances(txs: seq<T.Transaction>, utxos: T.Utxos): (r: Result<VB.ValueBalance, VB.Error>)
    requires AllCovered(txs, utxos)
    ensures r.Ok? ==> VB.InRange(A.NegativeAllowed, r.value)
    decreases |txs|
  {
    if txs == [] then Ok(VB.ZERO)
    else
      var sum :- FoldBalances(txs[..|txs| - 1], utxos);
      var balance :- T.ValueBalance(txs[|txs| - 1], utxos);
      VB.Add(A.NegativeAllowed, sum, balance)
  }

  /** The sum, negated, with the deferred slot overwritten. */
  function ChainValuePoolChange(txs: seq<T.Transaction>, utxos: T.Utxos, deferred: T.SignedAmount):
      (r: Result<VB.ValueBalance, VB.Error>)
    requires AllCovered(txs, utxos)
    ensures r.Ok? ==> VB.InRange(A.NegativeAllowed, r.value)
  {
    var sum :- FoldBalances(txs, utxos);
    Ok(VB.Neg(A.NegativeAllowed, sum).(deferred := deferred))
  }

  // ----- what a block's change is

  predicate AllCover(txs: seq<T.Transaction>, outputs: T.Outputs) {
    forall i :: 0 <= i < |txs| ==> T.Covers(outputs, txs[i].inputs)
  }

  /** Every transaction has a value balance. */
  predicate AllFit(txs: seq<T.Transaction>, outputs: T.Outputs)
    requires AllCover(txs, outputs)
  {
    txs == [] || (AllFit(txs[..|txs| - 1], outputs) && T.Fits(txs[|txs| - 1], outputs))
  }

  /** The integer balances of the transactions. */
  function BalancesOf(txs: seq<T.Transaction>, outputs: T.Outputs): seq<VB.ValueBalance>
    requires AllCover(txs, outputs)
  {
    seq(|txs|, i requires 0 <= i < |txs| => T.Balances(txs[i], outputs))
  }

  lemma BalancesSnoc(txs: seq<T.Transaction>, outputs: T.Outputs)
    requires AllCover(txs, outputs) && txs != []
    ensures BalancesOf(txs, outputs)[..|txs| - 1] == BalancesOf(txs[..|txs| - 1], outputs)
  {
  }

  /** The five transaction pools of all the transactions together. */
  function TransactionsTotal(txs: seq<T.Transaction>, outputs: T.Outputs): int
    requires AllCover(txs, outputs)
  {
    if txs == [] then 0
    else TransactionsTotal(txs[..|txs| - 1], outputs) + VB.FivePools(T.Balances(txs[|txs| - 1], outputs))
  }

  /** Every transaction has a balance, and no prefix of them leaves the signed range in any pool. */
  predicate BatchFits(txs: seq<T.Transaction>, outputs: T.Outputs)
    requires AllCover(txs, outputs)
  {
    AllFit(txs, outputs) && VB.PrefixesInRange(A.NegativeAllowed, BalancesOf(txs, outputs))
  }

  /** What the transactions add up to, pool by pool. */
  function BatchBalance(txs: seq<T.Transaction>, outputs: T.Outputs): VB.ValueBalance
    requires AllCover(txs, outputs)
  {
    VB.SumOf(BalancesOf(txs, outputs))
  }

  lemma CoverBoth(txs: seq<T.Transaction>, utxos: T.Utxos)
    requires AllCovered(txs, utxos)
    ensures AllCover(txs, T.OutputsOf(utxos))
  {
    forall i | 0 <= i < |txs| ensures T.Covers(T.OutputsOf(utxos), txs[i].inputs) {
      T.OnlySpentOutputsMatter(txs[i], utxos);
    }
  }

  lemma {:induction false} FoldExact(txs: seq<T.Transaction>, utxos: T.Utxos)
    requires AllCovered(txs, utxos)
    ensures AllCover(txs, T.OutputsOf(utxos))
    ensures FoldBalances(txs, utxos).Ok? <==> BatchFits(txs, T.OutputsOf(utxos))
    ensures FoldBalances(txs, utxos).Ok? ==> FoldBalances(txs, utxos).value == BatchBalance(txs, T.OutputsOf(utxos))
    decreases |txs|
  {
    CoverBoth(txs, utxos);
    if txs != [] {
      var outputs := T.OutputsOf(utxos);
      var init, last := txs[..|txs| - 1], txs[|txs| - 1];
      FoldExact(init, utxos);
      BalancesSnoc(txs, outputs);
      T.OnlySpentOutputsMatter(last, utxos);
      T.ValueBalanceExact(last, outputs);
      if FoldBalances(init, utxos).Ok? && T.ValueBalance(last, utxos).Ok? {
        var sum, balance := FoldBalances(init, utxos).value, T.Balances(last, outputs);
        VB.AddExact(A.NegativeAllowed, sum, balance);
        VB.ConstrainExact(A.NegativeAllowed, VB.Plus(sum, balance));
      }
    }
  }

  lemma {:induction false} SumOfBalances(txs: seq<T.Transaction>, outputs: T.Outputs)
    requires AllCover(txs, outputs)
    ensures BatchBalance(txs, outputs).deferred == 0
    ensures VB.FivePools(BatchBalance(txs, outputs)) == TransactionsTotal(txs, outputs)
    decreases |txs|
  {
    if txs != [] {
      SumOfBalances(txs[..|txs| - 1], outputs);
      BalancesSnoc(txs, outputs);
    }
  }

  /** What a block does to the pools: it takes the transactions' five pools away and puts the deferred change in. */
  function BlockChange(balance: VB.ValueBalance, deferred: int): VB.ValueBalance {
    VB.Minus(VB.Only(VB.Deferred, deferred), balance.(deferred := 0))
  }

  lemma ChangeExact(txs: seq<T.Transaction>, utxos: T.Utxos, deferred: T.SignedAmount)
    requires AllCovered(txs, utxos)
    ensures AllCover(txs, T.OutputsOf(utxos))
    ensures ChainValuePoolChange(txs, utxos, deferred).Ok? <==> BatchFits(txs, T.OutputsOf(utxos))
    ensures ChainValuePoolChange(txs, utxos, deferred).Ok? ==>
              ChainValuePoolChange(txs, utxos, deferred).value == BlockChange(BatchBalance(txs, T.OutputsOf(utxos)), deferred)
  {
    hide BatchFits, BatchBalance, AllCover, AllCovered, FoldBalances, BlockChange, VB.Neg, VB.InRange;
    FoldExact(txs, utxos);
    var sum := FoldBalances(txs, utxos);
    if sum.Ok? { NegatedChange(sum.value, deferred); }
  }

  lemma NegatedChange(sum: VB.ValueBalance, deferred: int)
    requires VB.InRange(A.NegativeAllowed, sum)
    ensures VB.Neg(A.NegativeAllowed, sum).(deferred := deferred) == BlockChange(sum, deferred)
  {
  }

  /**
   A block's pool change exists exactly when all its transactions have balances and no prefix of them
   leaves the signed range in any pool. Money is conserved: its total is the deferred change minus the
   five pools of all transactions, so overwriting the deferred slot loses nothing.
   */
  lemma BlockConservesMoney(txs: seq<T.Transaction>, utxos: T.Utxos, deferred: T.SignedAmount)
    requires AllCovered(txs, utxos)
    ensures AllCover(txs, T.OutputsOf(utxos))
    ensures ChainValuePoolChange(txs, utxos, deferred).Ok? <==> BatchFits(txs, T.OutputsOf(utxos))
    ensures BatchBalance(txs, T.OutputsOf(utxos)).deferred == 0
    ensures ChainValuePoolChange(txs, utxos, deferred).Ok? ==>
              var change := ChainValuePoolChange(txs, utxos, deferred).value;
              VB.IntTotal(change) == deferred - TransactionsTotal(txs, T.OutputsOf(utxos))
  {
    hide BatchFits, BatchBalance, AllCover, AllCovered, TransactionsTotal, ChainValuePoolChange;
    ChangeExact(txs, utxos, deferred);
    SumOfBalances(txs, T.OutputsOf(utxos));
  }

  // ----- one transaction at a time

  function AddTransaction(pool: VB.ValueBalance, tx: T.Transaction, outputs: T.Outputs): (r: Result<VB.ValueBalance, VB.Error>)
    requires VB.InRange(A.NonNegative, pool) && T.Covers(outputs, tx.inputs)
    ensures r.Ok? ==> VB.InRange(A.NonNegative, r.value)
  {
    var balance :- T.ValueBalanceFromOutputs(tx, outputs);
    var change := VB.Neg(A.NegativeAllowed, balance);
    VB.PoolChangeExact(pool, change);
    VB.AddChainValuePoolChange(pool, change)
  }

  function AddEach(pool: VB.ValueBalance, txs: seq<T.Transaction>, outputs: T.Outputs): (r: Result<VB.ValueBalance, VB.Error>)
    requires VB.InRange(A.NonNegative, pool) && AllCover(txs, outputs)
    ensures r.Ok? ==> VB.InRange(A.NonNegative, r.value)
    decreases |txs|
  {
    if txs == [] then Ok(pool)
    else
      var before :- AddEach(pool, txs[..|txs| - 1], outputs);
      AddTransaction(before, txs[|txs| - 1], outputs)
  }

  /** After each of the transactions, what is left of the pool is acceptable. */
  predicate AcceptableAfterEach(pool: VB.ValueBalance, vs: seq<VB.ValueBalance>) {
    vs == [] || (AcceptableAfterEach(pool, vs[..|vs| - 1]) && VB.Acceptable(VB.Minus(pool, VB.SumOf(vs))))
  }

  lemma BatchSnoc(pool: VB.ValueBalance, txs: seq<T.Transaction>, outputs: T.Outputs)
    requires AllCover(txs, outputs) && txs != []
    ensures
      var init, last := txs[..|txs| - 1], txs[|txs| - 1];
      && BatchBalance(txs, outputs) == VB.Plus(BatchBalance(init, outputs), T.Balances(last, outputs))
      && (AcceptableAfterEach(pool, BalancesOf(txs, outputs)) <==>
          && AcceptableAfterEach(pool, BalancesOf(init, outputs))
          && VB.Acceptable(VB.Minus(pool, BatchBalance(txs, outputs))))
  {
    hide T.Balances, VB.Plus, VB.Minus, VB.Acceptable, T.Covers;
    var vs := BalancesOf(txs, outputs);
    BalancesSnoc(txs, outputs);
    assert vs[|vs| - 1] == T.Balances(txs[|txs| - 1], outputs);
  }

  /** One at a time, transactions are absorbed exactly when they have balances and the pool is acceptable after each. */
  lemma {:induction false} AddEachExact(pool: VB.ValueBalance, txs: seq<T.Transaction>, outputs: T.Outputs)
    requires VB.InRange(A.NonNegative, pool) && AllCover(txs, outputs)
    ensures AddEach(pool, txs, outputs).Ok? <==> AllFit(txs, outputs) && AcceptableAfterEach(pool, BalancesOf(txs, outputs))
    ensures AddEach(pool, txs, outputs).Ok? ==> AddEach(pool, txs, outputs).value == VB.Minus(pool, BatchBalance(txs, outputs))
    decreases |txs|
  {
    if txs != [] {
      hide VB.InRange, VB.Acceptable, BatchBalance, T.Fits, T.Balances, BalancesOf, AcceptableAfterEach, AddTransaction;
      var init, last := txs[..|txs| - 1], txs[|txs| - 1];
      AddEachExact(pool, init, outputs);
      BatchSnoc(pool, txs, outputs);
      if AddEach(pool, init, outputs).Ok? {
        AddTransactionExact(AddEach(pool, init, outputs).value, last, outputs);
        MinusTwice(pool, BatchBalance(init, outputs), T.Balances(last, outputs));
      }
    }
  }

  lemma MinusTwice(pool: VB.ValueBalance, a: VB.ValueBalance, b: VB.ValueBalance)
    ensures VB.Minus(VB.Minus(pool, a), b) == VB.Minus(pool, VB.Plus(a, b))
  {
  }

  /** A pool absorbs one transaction exactly when it has a balance that leaves the pool acceptable. */
  lemma AddTransactionExact(pool: VB.ValueBalance, tx: T.Transaction, outputs: T.Outputs)
    requires VB.InRange(A.NonNegative, pool) && T.Covers(outputs, tx.inputs)
    ensures AddTransaction(pool, tx, outputs).Ok? <==>
            T.Fits(tx, outputs) && VB.Acceptable(VB.Minus(pool, T.Balances(tx, outputs)))
    ensures AddTransaction(pool, tx, outputs).Ok? ==>
              AddTransaction(pool, tx, outputs).value == VB.Minus(pool, T.Balances(tx, outputs))
  {
    T.ValueBalanceExact(tx, outputs);
    hide T.Fits, T.ValueBalanceFromOutputs, VB.InRange;
    if T.Fits(tx, outputs) {
      var balance := T.Balances(tx, outputs);
      hide T.Balances;
      VB.PoolChangeExact(pool, VB.Neg(A.NegativeAllowed, balance));
      AbsorbNegated(pool, balance);
    }
  }

  lemma AbsorbNegated(pool: VB.ValueBalance, balance: VB.ValueBalance)
    requires VB.InRange(A.NegativeAllowed, balance)
    ensures VB.Plus(pool, VB.Neg(A.NegativeAllowed, balance)) == VB.Minus(pool, balance)
    ensures balance.deferred == 0 ==> VB.Plus(pool, BlockChange(balance, 0)) == VB.Minus(pool, balance)
  {
  }

  /** Spending one output takes its value out of the transparent pool. */
  function AddTransparentInput(pool: VB.ValueBalance, input: T.Input, outputs: T.Outputs): Result<VB.ValueBalance, VB.Error>
    requires VB.InRange(A.NonNegative, pool) && T.Found(input, outputs)
  {
    var change := A.Neg(A.NonNegative, T.ValueFromOutputs(input, outputs));
    VB.AddChainValuePoolChange(pool, VB.Only(VB.Transparent, change))
  }

  /** An output can be spent exactly when the transparent pool holds its value and the rest is within the cap. */
  lemma AddTransparentInputExact(pool: VB.ValueBalance, input: T.Input, outputs: T.Outputs)
    requires VB.InRange(A.NonNegative, pool) && T.Found(input, outputs)
    ensures AddTransparentInput(pool, input, outputs) ==
            var value := if input.PrevOut? then outputs[input.outpoint].value else 0;
            if value > pool.transparent then
              Err(VB.PoolError(VB.Transparent, A.OutOfRange(pool.transparent - value, 0, A.MAX_MONEY)))
            else if VB.IntTotal(pool) - value > A.MAX_MONEY then
              Err(VB.TotalError(A.OutOfRange(VB.IntTotal(pool) - value, 0, A.MAX_MONEY)))
            else Ok(pool.(transparent := pool.transparent - value))
  {
    var change := A.Neg(A.NonNegative, T.ValueFromOutputs(input, outputs));
    VB.PoolChangeExact(pool, VB.Only(VB.Transparent, change));
  }

  /** What the pools lose in total stays in the signed range as long as they stay acceptable. */
  lemma {:induction false} AcceptableKeepsRange(pool: VB.ValueBalance, vs: seq<VB.ValueBalance>)
    requires VB.InRange(A.NonNegative, pool) && AcceptableAfterEach(pool, vs)
    ensures VB.PrefixesInRange(A.NegativeAllowed, vs)
    decreases |vs|
  {
    if vs != [] {
      AcceptableKeepsRange(pool, vs[..|vs| - 1]);
    }
  }

  /**
   One at a time implies all at once: if an acceptable pool absorbs the transactions of a block in order,
   the block's pool change never overflows on the way, and absorbing it at once gives the same pool.
   */
  lemma OneAtATimeImpliesBatch(pool: VB.ValueBalance, txs: seq<T.Transaction>, utxos: T.Utxos)
    requires VB.Acceptable(pool) && AllCovered(txs, utxos) && AllCover(txs, T.OutputsOf(utxos))
    requires AddEach(pool, txs, T.OutputsOf(utxos)).Ok?
    ensures ChainValuePoolChange(txs, utxos, 0).Ok?
    ensures VB.AddChainValuePoolChange(pool, ChainValuePoolChange(txs, utxos, 0).value) == AddEach(pool, txs, T.OutputsOf(utxos))
  {
    var vs := BalancesOf(txs, T.OutputsOf(utxos));
    AddEachExact(pool, txs, T.OutputsOf(utxos));
    AcceptableKeepsRange(pool, vs);
    AcceptableAtEnd(pool, vs);
    ChangeExact(txs, utxos, 0);
    SumOfBalances(txs, T.OutputsOf(utxos));
    var change := ChainValuePoolChange(txs, utxos, 0).value;
    hide VB.InRange, AddEach, BatchFits, AcceptableAfterEach, BatchBalance, ChainValuePoolChange, T.OutputsOf;
    VB.PoolChangeExact(pool, change);
    AbsorbNegated(pool, BatchBalance(txs, T.OutputsOf(utxos)));
  }

  lemma AcceptableAtEnd(pool: VB.ValueBalance, vs: seq<VB.ValueBalance>)
    requires VB.Acceptable(pool) && AcceptableAfterEach(pool, vs)
    ensures VB.Acceptable(VB.Minus(pool, VB.SumOf(vs))) && VB.InRange(A.NegativeAllowed, VB.SumOf(vs))
  {
    if vs == [] {
      assert VB.Minus(pool, VB.ZERO) == pool;
    }
  }

  /** A transaction that only moves `x` zatoshis out of the sapling pool. */
  function Unshield(x: T.SignedAmount): T.Transaction {
    T.V4([], [], None, Some(x))
  }

  /** And one that puts them back. */
  function Shield(x: T.SignedAmount): T.Transaction {
    Unshield(A.Neg(A.NegativeAllowed, x))
  }

  lemma UnshieldBalance(x: T.SignedAmount, utxos: T.Utxos)
    ensures T.CoveredBy(Unshield(x), utxos) && T.Covers(T.OutputsOf(utxos), Unshield(x).inputs)
    ensures T.Balances(Unshield(x), T.OutputsOf(utxos)) == VB.Only(VB.Sapling, x)
    ensures T.ValueBalance(Unshield(x), utxos) == Ok(VB.Only(VB.Sapling, x))
  {
    var tx, outputs := Unshield(x), T.OutputsOf(utxos);
    T.OnlySpentOutputsMatter(tx, utxos);
    assert T.InputValues(tx.inputs, outputs) == [] && T.OutputValues(tx.outputs) == [] && T.SproutAmounts(tx) == [];
    T.ValueBalanceExact(tx, outputs);
  }

  lemma FoldSnoc(txs: seq<T.Transaction>, tx: T.Transaction, utxos: T.Utxos)
    requires AllCovered(txs, utxos) && T.CoveredBy(tx, utxos)
    ensures AllCovered(txs + [tx], utxos)
    ensures FoldBalances(txs, utxos).Ok? && T.ValueBalance(tx, utxos).Ok? ==>
              FoldBalances(txs + [tx], utxos) == VB.Add(A.NegativeAllowed, FoldBalances(txs, utxos).value, T.ValueBalance(tx, utxos).value)
  {
    hide VB.Add, T.CoveredBy, T.ValueBalance;
    assert (txs + [tx])[..|txs|] == txs;
  }

  lemma AddFirst(pool: VB.ValueBalance, first: T.Transaction, second: T.Transaction, outputs: T.Outputs)
    requires VB.InRange(A.NonNegative, pool) && T.Covers(outputs, first.inputs) && T.Covers(outputs, second.inputs)
    ensures AllCover([first, second], outputs)
    ensures AddTransaction(pool, first, outputs).Err? ==> AddEach(pool, [first, second], outputs).Err?
  {
    hide AddTransaction, VB.InRange, T.Covers;
    assert [first, second][..1] == [first] && [first][..0] == [];
    assert AddEach(pool, [first], outputs) == AddTransaction(pool, first, outputs);
  }

  /**
   The converse fails: a block whose first transaction takes money out of an empty sapling pool and whose
   second puts it back changes nothing, but is refused one transaction at a time.
   */
  lemma DetourIsAbsorbedAtOnce(x: T.SignedAmount, utxos: T.Utxos)
    ensures AllCovered([Unshield(x), Shield(x)], utxos)
    ensures ChainValuePoolChange([Unshield(x), Shield(x)], utxos, 0) == Ok(VB.ZERO)
  {
    UnshieldBalance(x, utxos);
    UnshieldBalance(A.Neg(A.NegativeAllowed, x), utxos);
    EmptyFold(utxos);
    AddSapling(0, x);
    AddSapling(x, -x);
    hide Unshield, Shield, FoldBalances, AllCovered, VB.Add, ChainValuePoolChange;
    FoldSnoc([], Unshield(x), utxos);
    FoldSnoc([Unshield(x)], Shield(x), utxos);
    assert [] + [Unshield(x)] == [Unshield(x)] && [Unshield(x)] + [Shield(x)] == [Unshield(x), Shield(x)];
    ZeroChange([Unshield(x), Shield(x)], utxos);
  }

  lemma DetourIsRefusedOneAtATime(x: T.SignedAmount, utxos: T.Utxos, pool: VB.ValueBalance)
    requires VB.InRange(A.NonNegative, pool) && pool.sapling < x
    ensures AllCover([Unshield(x), Shield(x)], T.OutputsOf(utxos))
    ensures AddEach(pool, [Unshield(x), Shield(x)], T.OutputsOf(utxos)).Err?
  {
    UnshieldBalance(x, utxos);
    UnshieldBalance(A.Neg(A.NegativeAllowed, x), utxos);
    AddTransactionExact(pool, Unshield(x), T.OutputsOf(utxos));
    hide Unshield, Shield, AddEach, AddTransaction, AllCover;
    AddFirst(pool, Unshield(x), Shield(x), T.OutputsOf(utxos));
  }

  lemma AddSapling(x: T.SignedAmount, y: T.SignedAmount)
    requires A.InRange(A.NegativeAllowed, x + y)
    ensures VB.Add(A.NegativeAllowed, VB.Only(VB.Sapling, x), VB.Only(VB.Sapling, y)) == Ok(VB.Only(VB.Sapling, x + y))
  {
  }

  lemma ZeroChange(txs: seq<T.Transaction>, utxos: T.Utxos)
    requires AllCovered(txs, utxos) && FoldBalances(txs, utxos) == Ok(VB.ZERO)
    ensures ChainValuePoolChange(txs, utxos, 0) == Ok(VB.ZERO)
  {
    hide AllCovered, FoldBalances;
  }

  lemma EmptyFold(utxos: T.Utxos)
    ensures AllCovered([], utxos) && FoldBalances([], utxos) == Ok(VB.ZERO)
  {
  }
}
