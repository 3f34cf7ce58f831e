/** Chains of blocks: the unspent outputs and the value pools they leave behind. */
module Ledger {
  import opened Wrappers
  import A = Amount
  import T = Transaction
  import VB = ValueBalance
  import P = Pools

  /** A transaction with its precomputed hash. */
  datatype HashedTx = HashedTx(hash: nat, tx: T.Transaction)

  datatype Block = Block(height: nat, txs: seq<HashedTx>, deferred: T.SignedAmount)

  function Txs(hashed: seq<HashedTx>): seq<T.Transaction> {
    seq(|hashed|, i requires 0 <= i < |hashed| => hashed[i].tx)
  }

  // ----- new and spent outputs

  /** The outputs of one transaction, by output index; `coinbase` is whether it is the first of its block. */
  function FirstOutputs(h: HashedTx, n: nat, height: nat, coinbase: bool): T.Utxos
    requires n <= |h.tx.outputs|
  {
    if n == 0 then map[]
    else FirstOutputs(h, n - 1, height, coinbase)[T.OutPoint(h.hash, n - 1) := T.Utxo(h.tx.outputs[n - 1], height, coinbase)]
  }

  function TransactionOutputs(h: HashedTx, index: nat, height: nat): T.Utxos {
    FirstOutputs(h, |h.tx.outputs|, height, index == 0)
  }

  /** The outputs of a block, `new_outputs`. */
  function NewOutputs(txs: seq<HashedTx>, height: nat): T.Utxos {
    if txs == [] then map[]
    else NewOutputs(txs[..|txs| - 1], height) + TransactionOutputs(txs[|txs| - 1], |txs| - 1, height)
  }

  function OutPointsOf(inputs: seq<T.Input>): seq<T.OutPoint> {
    if inputs == [] then []
    else
      var init, last := inputs[..|inputs| - 1], inputs[|inputs| - 1];
      OutPointsOf(init) + if last.PrevOut? then [last.outpoint] else []
  }

  /** What the transactions of a block spend, in order. */
  function Spent(txs: seq<HashedTx>): seq<T.OutPoint> {
    if txs == [] then [] else Spent(txs[..|txs| - 1]) + OutPointsOf(txs[|txs| - 1].tx.inputs)
  }

  // ----- chains

  datatype State = State(pool: VB.ValueBalance, utxos: T.Utxos)

  const GENESIS := State(VB.ZERO, map[])

  /** No outpoint is created twice. */
  predicate AllNew(utxos: T.Utxos, txs: seq<HashedTx>, height: nat) {
    txs == [] ||
    var init := txs[..|txs| - 1];
    && AllNew(utxos, init, height)
    && (utxos + NewOutputs(init, height)).Keys !! TransactionOutputs(txs[|txs| - 1], |txs| - 1, height).Keys
  }

  predicate Distinct<X(==)>(s: seq<X>) {
    forall i, j :: 0 <= i < j < |s| ==> s[i] != s[j]
  }

  /** Everything spent is unspent or created in the block, and nothing is spent twice. */
  predicate NoDoubleSpend(utxos: T.Utxos, block: Block) {
    && (forall o <- Spent(block.txs) :: o in Spendable(utxos, block))
    && Distinct(Spent(block.txs))
  }

  function Spendable(utxos: T.Utxos, block: Block): T.Utxos {
    utxos + NewOutputs(block.txs, block.height)
  }

  predicate Connects(utxos: T.Utxos, block: Block) {
    AllNew(utxos, block.txs, block.height) && NoDoubleSpend(utxos, block)
  }

  /** Accept a block: its pool change must exist and be absorbed. */
  function Accept(s: State, block: Block): (r: Result<State, VB.Error>)
    requires VB.InRange(A.NonNegative, s.pool) && Connects(s.utxos, block)
    ensures r.Ok? ==> VB.InRange(A.NonNegative, r.value.pool)
  {
    var utxos := Spendable(s.utxos, block);
    SpentIsCovered(block.txs, utxos);
    var change :- P.ChainValuePoolChange(Txs(block.txs), utxos, block.deferred);
    VB.PoolChangeExact(s.pool, change);
    var pool :- VB.AddChainValuePoolChange(s.pool, change);
    Ok(State(pool, utxos - Elements(Spent(block.txs))))
  }

  lemma {:induction false} OutPointsAreSpent(tx: T.Transaction, n: nat)
    requires n <= |tx.inputs|
    ensures forall i :: 0 <= i < n && tx.inputs[i].PrevOut? ==> tx.inputs[i].outpoint in OutPointsOf(tx.inputs[..n])
    decreases n
  {
    if n > 0 {
      OutPointsAreSpent(tx, n - 1);
      assert tx.inputs[..n][..n - 1] == tx.inputs[..n - 1];
    }
  }

  lemma {:induction false} SpentIsCovered(txs: seq<HashedTx>, utxos: T.Utxos)
    requires forall o <- Spent(txs) :: o in utxos
    ensures P.AllCovered(Txs(txs), utxos)
    decreases |txs|
  {
    if txs != [] {
      var last := txs[|txs| - 1].tx;
      SpentIsCovered(txs[..|txs| - 1], utxos);
      OutPointsAreSpent(last, |last.inputs|);
      assert last.inputs[..|last.inputs|] == last.inputs;
      assert T.CoveredBy(last, utxos);
      forall i | 0 <= i < |txs| ensures T.CoveredBy(txs[i].tx, utxos) {
        if i < |txs| - 1 { assert Txs(txs[..|txs| - 1])[i] == txs[i].tx; }
      }
    }
  }

  // ----- which outputs are created and spent

  lemma {:induction false} FirstOutputsExact(h: HashedTx, n: nat, height: nat, coinbase: bool)
    requires n <= |h.tx.outputs|
    ensures forall o :: o in FirstOutputs(h, n, height, coinbase) <==> o.hash == h.hash && o.index < n
    ensures forall j: nat | j < n ::
              && T.OutPoint(h.hash, j) in FirstOutputs(h, n, height, coinbase)
              && FirstOutputs(h, n, height, coinbase)[T.OutPoint(h.hash, j)] == T.Utxo(h.tx.outputs[j], height, coinbase)
  {
    if n > 0 { FirstOutputsExact(h, n - 1, height, coinbase); }
  }

  /** `o` is output `o.index` of transaction `i`. */
  predicate Creates(txs: seq<HashedTx>, i: nat, o: T.OutPoint) {
    i < |txs| && o.hash == txs[i].hash && o.index < |txs[i].tx.outputs|
  }

  lemma {:induction false} CreatedKeys(txs: seq<HashedTx>, height: nat, o: T.OutPoint)
    ensures o in NewOutputs(txs, height) <==> exists i: nat :: Creates(txs, i, o)
    decreases |txs|
  {
    if txs != [] {
      var init, last := txs[..|txs| - 1], txs[|txs| - 1];
      CreatedKeys(init, height, o);
      FirstOutputsExact(last, |last.tx.outputs|, height, |init| == 0);
      if o in NewOutputs(init, height) {
        var i: nat :| Creates(init, i, o);
        assert Creates(txs, i, o);
      } else if o in NewOutputs(txs, height) {
        assert Creates(txs, |init|, o);
      }
      if i: nat :| Creates(txs, i, o) {
        if i < |init| { assert Creates(init, i, o); }
      }
    }
  }

  lemma {:induction false} CreatedValues(utxos: T.Utxos, txs: seq<HashedTx>, height: nat, i: nat, o: T.OutPoint)
    requires AllNew(utxos, txs, height) && Creates(txs, i, o)
    ensures o in NewOutputs(txs, height)
    ensures NewOutputs(txs, height)[o] == T.Utxo(txs[i].tx.outputs[o.index], height, i == 0)
    decreases |txs|
  {
    var init, last := txs[..|txs| - 1], txs[|txs| - 1];
    FirstOutputsExact(last, |last.tx.outputs|, height, |init| == 0);
    if i < |init| {
      assert Creates(init, i, o);
      CreatedValues(utxos, init, height, i, o);
      assert o !in TransactionOutputs(last, |init|, height);
    } else {
      assert o == T.OutPoint(last.hash, o.index);
    }
  }

  /**
   A block creates exactly the outputs of its transactions, each under the hash of its transaction and its
   own index, at the block's height, and from a coinbase exactly in the first transaction.
   */
  lemma NewOutputsExact(utxos: T.Utxos, txs: seq<HashedTx>, height: nat, o: T.OutPoint)
    ensures
      o in NewOutputs(txs, height) <==>
      exists i: nat, j: nat :: i < |txs| && j < |txs[i].tx.outputs| && o == T.OutPoint(txs[i].hash, j)
    ensures AllNew(utxos, txs, height) ==>
              forall i: nat, j: nat | i < |txs| && j < |txs[i].tx.outputs| && o == T.OutPoint(txs[i].hash, j) ::
                o in NewOutputs(txs, height) && NewOutputs(txs, height)[o] == T.Utxo(txs[i].tx.outputs[j], height, i == 0)
  {
    CreatedKeys(txs, height, o);
    if o in NewOutputs(txs, height) {
      var i: nat :| Creates(txs, i, o);
      assert o == T.OutPoint(txs[i].hash, o.index);
    }
    forall i: nat, j: nat | i < |txs| && j < |txs[i].tx.outputs| && o == T.OutPoint(txs[i].hash, j)
      ensures o in NewOutputs(txs, height)
      ensures AllNew(utxos, txs, height) ==> NewOutputs(txs, height)[o] == T.Utxo(txs[i].tx.outputs[j], height, i == 0)
    {
      assert Creates(txs, i, o);
      if AllNew(utxos, txs, height) { CreatedValues(utxos, txs, height, i, o); }
    }
  }

  lemma {:induction false} OutPointsExact(inputs: seq<T.Input>, o: T.OutPoint)
    ensures o in OutPointsOf(inputs) <==> T.PrevOut(o) in inputs
    decreases |inputs|
  {
    if inputs != [] {
      OutPointsExact(inputs[..|inputs| - 1], o);
      assert inputs == inputs[..|inputs| - 1] + [inputs[|inputs| - 1]];
    }
  }

  /** A block spends exactly the outpoints its transactions' inputs name. */
  lemma {:induction false} SpentExact(txs: seq<HashedTx>, o: T.OutPoint)
    ensures o in Spent(txs) <==> exists i :: 0 <= i < |txs| && T.PrevOut(o) in txs[i].tx.inputs
    decreases |txs|
  {
    if txs != [] {
      var init, last := txs[..|txs| - 1], txs[|txs| - 1];
      SpentExact(init, o);
      OutPointsExact(last.tx.inputs, o);
      if o in Spent(init) {
        var i :| 0 <= i < |init| && T.PrevOut(o) in init[i].tx.inputs;
        assert T.PrevOut(o) in txs[i].tx.inputs;
      }
      if i :| 0 <= i < |txs| && T.PrevOut(o) in txs[i].tx.inputs {
        if i < |init| { assert T.PrevOut(o) in init[i].tx.inputs; }
      }
    }
  }

  /**
   After a block, an output is unspent exactly if it was or is new, and no input of the block names it. Old
   outputs are as they were; a new one has its transaction's output, the block's height, and a mark if it
   is from the first transaction.
   */
  lemma UnspentAfter(s: State, block: Block, o: T.OutPoint)
    requires VB.InRange(A.NonNegative, s.pool) && Connects(s.utxos, block) && Accept(s, block).Ok?
    ensures
      var created := exists i: nat, j: nat ::
                       i < |block.txs| && j < |block.txs[i].tx.outputs| && o == T.OutPoint(block.txs[i].hash, j);
      var spent := exists i :: 0 <= i < |block.txs| && T.PrevOut(o) in block.txs[i].tx.inputs;
      && (o in Accept(s, block).value.utxos <==> (o in s.utxos || created) && !spent)
      && !(o in s.utxos && created)
    ensures o in Accept(s, block).value.utxos && o in s.utxos ==> Accept(s, block).value.utxos[o] == s.utxos[o]
    ensures o in Accept(s, block).value.utxos ==>
              forall i: nat, j: nat | i < |block.txs| && j < |block.txs[i].tx.outputs| && o == T.OutPoint(block.txs[i].hash, j) ::
                Accept(s, block).value.utxos[o] == T.Utxo(block.txs[i].tx.outputs[j], block.height, i == 0)
  {
    NewOutputsExact(s.utxos, block.txs, block.height, o);
    NewIsNotOld(s.utxos, block.txs, block.height, o);
    SpentExact(block.txs, o);
    AcceptExact(s, block);
    hide Accept, NewOutputs, Spent, AllNew, NoDoubleSpend;
  }

  lemma {:induction false} NewIsNotOld(utxos: T.Utxos, txs: seq<HashedTx>, height: nat, o: T.OutPoint)
    requires AllNew(utxos, txs, height)
    ensures !(o in utxos && o in NewOutputs(txs, height))
    decreases |txs|
  {
    if txs != [] { NewIsNotOld(utxos, txs[..|txs| - 1], height, o); }
  }

  // ----- the value of a set of unspent outputs

  ghost function SumValues(m: T.Utxos): int {
    if m == map[] then 0
    else
      var o :| o in m;
      m[o].output.value + SumValues(m - {o})
  }

  lemma {:induction false} SumRemove(m: T.Utxos, o: T.OutPoint)
    requires o in m
    ensures SumValues(m) == m[o].output.value + SumValues(m - {o})
    decreases |m|
  {
    var k :| k in m && SumValues(m) == m[k].output.value + SumValues(m - {k});
    if k != o {
      SumRemove(m - {k}, o);
      SumRemove(m - {o}, k);
      assert m - {k} - {o} == m - {o} - {k};
    }
  }

  lemma SumInsert(m: T.Utxos, o: T.OutPoint, u: T.Utxo)
    requires o !in m
    ensures SumValues(m[o := u]) == SumValues(m) + u.output.value
  {
    SumRemove(m[o := u], o);
    assert m[o := u] - {o} == m;
  }

  function ValueAt(m: T.Utxos, s: seq<T.OutPoint>): int
    requires forall o <- s :: o in m
  {
    if s == [] then 0 else ValueAt(m, s[..|s| - 1]) + m[s[|s| - 1]].output.value
  }

  function Elements<X>(s: seq<X>): set<X> {
    set x | x in s
  }

  lemma {:induction false} SumSpent(m: T.Utxos, s: seq<T.OutPoint>)
    requires (forall o <- s :: o in m) && Distinct(s)
    ensures SumValues(m - Elements(s)) == SumValues(m) - ValueAt(m, s)
    decreases |s|
  {
    if s == [] {
      assert m - Elements(s) == m;
    } else {
      var init, last := s[..|s| - 1], s[|s| - 1];
      SumSpent(m, init);
      assert last in m - Elements(init);
      SumRemove(m - Elements(init), last);
      assert Elements(s) == Elements(init) + {last} by { assert s == init + [last]; }
      assert m - Elements(init) - {last} == m - Elements(s);
    }
  }

  lemma {:induction false} FirstOutputsBelow(h: HashedTx, n: nat, height: nat, coinbase: bool)
    requires n <= |h.tx.outputs|
    ensures forall o <- FirstOutputs(h, n, height, coinbase) :: o.index < n
  {
    if n > 0 { FirstOutputsBelow(h, n - 1, height, coinbase); }
  }

  lemma {:induction false} SumFirstOutputs(m: T.Utxos, h: HashedTx, n: nat, height: nat, coinbase: bool)
    requires n <= |h.tx.outputs| && m.Keys !! FirstOutputs(h, n, height, coinbase).Keys
    ensures SumValues(m + FirstOutputs(h, n, height, coinbase)) == SumValues(m) + A.Total(T.OutputValues(h.tx.outputs[..n]))
  {
    if n == 0 {
      assert m + map[] == m;
    } else {
      var o, u := T.OutPoint(h.hash, n - 1), T.Utxo(h.tx.outputs[n - 1], height, coinbase);
      var before := FirstOutputs(h, n - 1, height, coinbase);
      assert m.Keys !! before.Keys && o !in m by {
        assert before.Keys <= FirstOutputs(h, n, height, coinbase).Keys && o in FirstOutputs(h, n, height, coinbase).Keys;
      }
      SumFirstOutputs(m, h, n - 1, height, coinbase);
      FirstOutputsBelow(h, n - 1, height, coinbase);
      SumInsert(m + before, o, u);
      assert (m + before)[o := u] == m + before[o := u];
      OutputValuesSnoc(h.tx.outputs, n);
    }
  }

  lemma OutputValuesSnoc(outputs: seq<T.Output>, n: nat)
    requires 1 <= n <= |outputs|
    ensures A.Total(T.OutputValues(outputs[..n])) == A.Total(T.OutputValues(outputs[..n - 1])) + outputs[n - 1].value
  {
    assert T.OutputValues(outputs[..n])[..n - 1] == T.OutputValues(outputs[..n - 1]);
  }

  function OutputTotal(txs: seq<HashedTx>): int {
    if txs == [] then 0 else OutputTotal(txs[..|txs| - 1]) + A.Total(T.OutputValues(txs[|txs| - 1].tx.outputs))
  }

  lemma {:induction false} SumNewOutputs(m: T.Utxos, txs: seq<HashedTx>, height: nat)
    requires AllNew(m, txs, height)
    ensures SumValues(m + NewOutputs(txs, height)) == SumValues(m) + OutputTotal(txs)
    decreases |txs|
  {
    if txs == [] {
      assert m + map[] == m;
    } else {
      var init, last := txs[..|txs| - 1], txs[|txs| - 1];
      SumNewOutputs(m, init, height);
      MergeAssociates(m, NewOutputs(init, height), TransactionOutputs(last, |init|, height));
      SumTransactionOutputs(m + NewOutputs(init, height), last, |init|, height);
    }
  }

  lemma SumTransactionOutputs(m: T.Utxos, h: HashedTx, index: nat, height: nat)
    requires m.Keys !! TransactionOutputs(h, index, height).Keys
    ensures SumValues(m + TransactionOutputs(h, index, height)) == SumValues(m) + A.Total(T.OutputValues(h.tx.outputs))
  {
    SumFirstOutputs(m, h, |h.tx.outputs|, height, index == 0);
    assert h.tx.outputs[..|h.tx.outputs|] == h.tx.outputs;
  }

  lemma MergeAssociates(a: T.Utxos, b: T.Utxos, c: T.Utxos)
    ensures a + b + c == a + (b + c)
  {
  }

  lemma {:induction false} ValueAtConcat(m: T.Utxos, a: seq<T.OutPoint>, b: seq<T.OutPoint>)
    requires forall o <- a + b :: o in m
    ensures (forall o <- a :: o in m) && (forall o <- b :: o in m)
    ensures ValueAt(m, a + b) == ValueAt(m, a) + ValueAt(m, b)
    decreases |b|
  {
    forall o | o in a ensures o in m { assert o in a + b; }
    forall o | o in b ensures o in m { assert o in a + b; }
    if b == [] {
      assert a + b == a;
    } else {
      var init := b[..|b| - 1];
      assert (a + b)[..|a + b| - 1] == a + init;
      forall o | o in a + init ensures o in m { assert o in a + b; }
      ValueAtConcat(m, a, init);
    }
  }

  /** The inputs of a transaction are worth what its spent outpoints are worth; coinbase inputs are worth nothing. */
  lemma {:induction false} InputsAreSpent(inputs: seq<T.Input>, utxos: T.Utxos)
    requires T.Covers(T.OutputsOf(utxos), inputs)
    ensures forall o <- OutPointsOf(inputs) :: o in utxos
    ensures A.Total(T.InputValues(inputs, T.OutputsOf(utxos))) == ValueAt(utxos, OutPointsOf(inputs))
    decreases |inputs|
  {
    if inputs != [] {
      var init, last := inputs[..|inputs| - 1], inputs[|inputs| - 1];
      var outputs := T.OutputsOf(utxos);
      InputsAreSpent(init, utxos);
      assert T.Found(last, outputs);
      assert T.InputValues(inputs, outputs)[..|inputs| - 1] == T.InputValues(init, outputs);
      if last.PrevOut? {
        var s := OutPointsOf(inputs);
        assert s[..|s| - 1] == OutPointsOf(init);
      } else {
        assert OutPointsOf(inputs) == OutPointsOf(init);
      }
    }
  }

  /** A block's transparent balance is what it spends minus what it creates. */
  lemma {:induction false} TransparentFlow(txs: seq<HashedTx>, utxos: T.Utxos)
    requires forall o <- Spent(txs) :: o in utxos
    ensures P.AllCover(Txs(txs), T.OutputsOf(utxos))
    ensures P.BatchBalance(Txs(txs), T.OutputsOf(utxos)).transparent == ValueAt(utxos, Spent(txs)) - OutputTotal(txs)
    decreases |txs|
  {
    SpentIsCovered(txs, utxos);
    P.CoverBoth(Txs(txs), utxos);
    if txs != [] {
      var init, last := txs[..|txs| - 1], txs[|txs| - 1].tx;
      ValueAtConcat(utxos, Spent(init), OutPointsOf(last.inputs));
      TransparentFlow(init, utxos);
      assert Txs(txs)[..|txs| - 1] == Txs(init) && Txs(txs)[|txs| - 1] == last;
      InputsAreSpent(last.inputs, utxos);
      P.BatchSnoc(VB.ZERO, Txs(txs), T.OutputsOf(utxos));
    }
  }

  // ----- one block

  /**
   The transparent pool is the value of the unspent outputs, before a block and after it: outputs the block
   creates and spends itself cancel out, and coinbase inputs take nothing away.
   */
  lemma AcceptKeepsUtxoValue(s: State, block: Block)
    requires VB.InRange(A.NonNegative, s.pool) && Connects(s.utxos, block)
    requires s.pool.transparent == SumValues(s.utxos)
    ensures Accept(s, block).Ok? ==>
              Accept(s, block).value.pool.transparent == SumValues(Accept(s, block).value.utxos)
  {
    if Accept(s, block).Ok? {
      AcceptExact(s, block);
      hide Accept, BlockBalance, BlockFits, P.BlockChange, VB.Acceptable, VB.InRange, SumValues, Spendable, Elements;
      PoolMoves(s.pool, BlockBalance(s.utxos, block), block.deferred);
      UtxosMove(s.utxos, block);
    }
  }

  lemma UtxosMove(utxos: T.Utxos, block: Block)
    requires Connects(utxos, block)
    ensures SumValues(Spendable(utxos, block) - Elements(Spent(block.txs))) == SumValues(utxos) - BlockBalance(utxos, block).transparent
  {
    SumNewOutputs(utxos, block.txs, block.height);
    SumSpent(Spendable(utxos, block), Spent(block.txs));
    TransparentFlow(block.txs, Spendable(utxos, block));
  }

  lemma PoolMoves(pool: VB.ValueBalance, balance: VB.ValueBalance, deferred: int)
    ensures
      var after := VB.Plus(pool, P.BlockChange(balance, deferred));
      && after.transparent == pool.transparent - balance.transparent
      && VB.IntTotal(after) == VB.IntTotal(pool) + deferred - VB.FivePools(balance)
  {
  }

  /** What a block's transactions add up to, given the outputs they can spend. */
  function BlockBalance(utxos: T.Utxos, block: Block): VB.ValueBalance
    requires forall o <- Spent(block.txs) :: o in Spendable(utxos, block)
  {
    SpentIsCovered(block.txs, Spendable(utxos, block));
    P.CoverBoth(Txs(block.txs), Spendable(utxos, block));
    P.BatchBalance(Txs(block.txs), T.OutputsOf(Spendable(utxos, block)))
  }

  predicate BlockFits(utxos: T.Utxos, block: Block)
    requires forall o <- Spent(block.txs) :: o in Spendable(utxos, block)
  {
    SpentIsCovered(block.txs, Spendable(utxos, block));
    P.CoverBoth(Txs(block.txs), Spendable(utxos, block));
    P.BatchFits(Txs(block.txs), T.OutputsOf(Spendable(utxos, block)))
  }

  /**
   A connecting block is accepted exactly when its balance exists and leaves the pools acceptable. The
   pools then change by the block's own integers, and the unspent outputs by what it creates and spends.
   */
  lemma AcceptExact(s: State, block: Block)
    requires VB.InRange(A.NonNegative, s.pool) && Connects(s.utxos, block)
    ensures
      var pool := VB.Plus(s.pool, P.BlockChange(BlockBalance(s.utxos, block), block.deferred));
      && (Accept(s, block).Ok? <==> BlockFits(s.utxos, block) && VB.Acceptable(pool))
      && (Accept(s, block).Ok? ==> Accept(s, block).value == State(pool, Spendable(s.utxos, block) - Elements(Spent(block.txs))))
  {
    var utxos := Spendable(s.utxos, block);
    SpentIsCovered(block.txs, utxos);
    P.ChangeExact(Txs(block.txs), utxos, block.deferred);
    var change := P.ChainValuePoolChange(Txs(block.txs), utxos, block.deferred);
    if change.Ok? {
      VB.PoolChangeExact(s.pool, change.value);
    }
  }

  // ----- whole chains

  /** The state after a chain of blocks from genesis, if each connects and is accepted. */
  function Run(blocks: seq<Block>): (r: Option<State>)
    ensures r.Some? ==> VB.InRange(A.NonNegative, r.value.pool)
    decreases |blocks|
  {
    if blocks == [] then Some(GENESIS)
    else
      match Run(blocks[..|blocks| - 1])
      case None => None
      case Some(s) =>
        if !Connects(s.utxos, blocks[|blocks| - 1]) then None
        else
          match Accept(s, blocks[|blocks| - 1])
          case Ok(next) => Some(next)
          case Err(_) => None
  }

  /** What the blocks put into circulation: deferred changes, and what transactions create out of nothing. */
  function Issued(blocks: seq<Block>): int
    requires Run(blocks).Some?
  {
    if blocks == [] then 0
    else
      var init, last := blocks[..|blocks| - 1], blocks[|blocks| - 1];
      Issued(init) + last.deferred - VB.FivePools(BlockBalance(Run(init).value.utxos, last))
  }

  /**
   Over every chain of accepted blocks with new outpoints and no double spend: the transparent pool is the
   value of the unspent outputs, all pools and their total stay within the cap, and all the money in
   them is what the blocks issued.
   */
  lemma {:induction false} ChainKeepsPools(blocks: seq<Block>)
    requires Run(blocks).Some?
    ensures Run(blocks).value.pool.transparent == SumValues(Run(blocks).value.utxos)
    ensures VB.Acceptable(Run(blocks).value.pool)
    ensures VB.IntTotal(Run(blocks).value.pool) == Issued(blocks)
    decreases |blocks|
  {
    if blocks != [] {
      var init, last := blocks[..|blocks| - 1], blocks[|blocks| - 1];
      ChainKeepsPools(init);
      var s := Run(init).value;
      assert Run(blocks).value == Accept(s, last).value;
      assert Issued(blocks) == Issued(init) + last.deferred - VB.FivePools(BlockBalance(s.utxos, last));
      hide Run, Issued, Accept, Connects, BlockBalance, BlockFits, P.BlockChange, VB.FivePools, VB.IntTotal, VB.Plus, VB.Acceptable, VB.InRange, SumValues;
      AcceptKeepsUtxoValue(s, last);
      AcceptExact(s, last);
      PoolMoves(s.pool, BlockBalance(s.utxos, last), last.deferred);
    }
  }
}
