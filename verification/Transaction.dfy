/** The value balance of a transaction, `transaction.rs`, and of its transparent inputs, `transparent.rs`. */
module Transaction {
  import opened Wrappers
  import A = Amount
  import VB = ValueBalance

  type NonNegativeAmount = v: int | A.InRange(A.NonNegative, v)
  type SignedAmount = v: int | A.InRange(A.NegativeAllowed, v)

  datatype OutPoint = OutPoint(hash: nat, index: nat)

  datatype Output = Output(value: NonNegativeAmount)

  datatype Input = PrevOut(outpoint: OutPoint) | Coinbase

  datatype JoinSplit = JoinSplit(vpubOld: NonNegativeAmount, vpubNew: NonNegativeAmount)

  datatype JoinSplitData = JoinSplitData(first: JoinSplit, rest: seq<JoinSplit>)

  /** What the six transaction versions can carry. */
  datatype Transaction =
    | V1(inputs: seq<Input>, outputs: seq<Output>)
    | V2(inputs: seq<Input>, outputs: seq<Output>, joinsplits: Option<JoinSplitData>)
    | V3(inputs: seq<Input>, outputs: seq<Output>, joinsplits: Option<JoinSplitData>)
    | V4(inputs: seq<Input>, outputs: seq<Output>, joinsplits: Option<JoinSplitData>, sapling: Option<SignedAmount>)
    | V5(inputs: seq<Input>, outputs: seq<Output>, sapling: Option<SignedAmount>, orchard: Option<SignedAmount>)
    | V6(inputs: seq<Input>, outputs: seq<Output>, sapling: Option<SignedAmount>, orchard: Option<SignedAmount>,
         ironwood: Option<SignedAmount>)

  datatype Utxo = Utxo(output: Output, height: nat, fromCoinbase: bool)

  type Outputs = map<OutPoint, Output>
  type Utxos = map<OutPoint, Utxo>

  // ----- transparent

  /** A missing output is a panic. */
  predicate Found(input: Input, outputs: Outputs) {
    input.PrevOut? ==> input.outpoint in outputs
  }

  function ValueFromOutputs(input: Input, outputs: Outputs): NonNegativeAmount
    requires Found(input, outputs)
  {
    match input
    case PrevOut(outpoint) => outputs[outpoint].value
    case Coinbase => 0
  }

  predicate Covers(outputs: Outputs, inputs: seq<Input>) {
    forall i :: 0 <= i < |inputs| ==> Found(inputs[i], outputs)
  }

  function InputValues(inputs: seq<Input>, outputs: Outputs): seq<NonNegativeAmount>
    requires Covers(outputs, inputs)
  {
    seq(|inputs|, i requires 0 <= i < |inputs| => ValueFromOutputs(inputs[i], outputs))
  }

  function OutputValues(outputs: seq<Output>): seq<NonNegativeAmount> {
    seq(|outputs|, i requires 0 <= i < |outputs| => outputs[i].value)
  }

  function TransparentBalance(tx: Transaction, outputs: Outputs): Result<VB.ValueBalance, VB.Error>
    requires Covers(outputs, tx.inputs)
  {
    var inputValue :- VB.At(VB.Transparent, A.Sum(A.NonNegative, InputValues(tx.inputs, outputs)));
    var outputValue :- VB.At(VB.Transparent, A.Sum(A.NonNegative, OutputValues(tx.outputs)));
    SumInRange(InputValues(tx.inputs, outputs));
    SumInRange(OutputValues(tx.outputs));
    var balance :- VB.At(VB.Transparent, A.Sub(A.NegativeAllowed, inputValue, outputValue));
    Ok(VB.Only(VB.Transparent, balance))
  }

  lemma SumInRange(items: seq<NonNegativeAmount>)
    ensures A.Total(items) <= A.MAX_MONEY ==> A.Sum(A.NonNegative, items) == Ok(A.Total(items)) && 0 <= A.Total(items)
    ensures A.Total(items) > A.MAX_MONEY ==> A.Sum(A.NonNegative, items).Err? && A.Sum(A.NonNegative, items).error.SumOverflow?
  {
    A.NonNegativeSum(items);
    A.SumExact(A.NonNegative, items);
    assert items[..|items|] == items;
  }

  // ----- the shielded pools

  function JoinSplits(tx: Transaction): seq<JoinSplit> {
    if (tx.V2? || tx.V3? || tx.V4?) && tx.joinsplits.Some?
    then [tx.joinsplits.value.first] + tx.joinsplits.value.rest
    else []
  }

  /** What a joinsplit adds to the transaction's pool; both `vpub` fields are non-negative, so it never fails. */
  function JoinSplitBalance(j: JoinSplit): SignedAmount {
    A.Sub(A.NegativeAllowed, j.vpubNew, j.vpubOld).value
  }

  function JoinSplitBalances(js: seq<JoinSplit>): seq<SignedAmount> {
    seq(|js|, i requires 0 <= i < |js| => JoinSplitBalance(js[i]))
  }

  function SproutAmounts(tx: Transaction): seq<SignedAmount> {
    JoinSplitBalances(JoinSplits(tx))
  }

  function SproutOnly(amounts: seq<SignedAmount>): (vs: seq<VB.ValueBalance>)
    ensures VB.AllInRange(A.NegativeAllowed, vs)
  {
    seq(|amounts|, i requires 0 <= i < |amounts| => VB.Only(VB.Sprout, amounts[i]))
  }

  function SproutBalance(tx: Transaction): Result<VB.ValueBalance, VB.Error> {
    VB.Sum(A.NegativeAllowed, SproutOnly(SproutAmounts(tx)))
  }

  function SaplingAmount(tx: Transaction): SignedAmount {
    if (tx.V4? || tx.V5? || tx.V6?) && tx.sapling.Some? then tx.sapling.value else 0
  }

  function OrchardAmount(tx: Transaction): SignedAmount {
    if (tx.V5? || tx.V6?) && tx.orchard.Some? then tx.orchard.value else 0
  }

  function IronwoodAmount(tx: Transaction): SignedAmount {
    if tx.V6? && tx.ironwood.Some? then tx.ironwood.value else 0
  }

  // ----- all pools

  /** `a? + b`, for balances already in range. */
  function Plus(a: Result<VB.ValueBalance, VB.Error>, b: VB.ValueBalance): Result<VB.ValueBalance, VB.Error>
    requires a.Ok? ==> VB.InRange(A.NegativeAllowed, a.value)
    requires VB.InRange(A.NegativeAllowed, b)
    ensures Plus(a, b).Ok? ==> VB.InRange(A.NegativeAllowed, Plus(a, b).value)
  {
    var sum :- a;
    VB.Add(A.NegativeAllowed, sum, b)
  }

  function ValueBalanceFromOutputs(tx: Transaction, outputs: Outputs): (r: Result<VB.ValueBalance, VB.Error>)
    requires Covers(outputs, tx.inputs)
    ensures r.Ok? ==> VB.InRange(A.NegativeAllowed, r.value)
  {
    var transparent :- TransparentBalance(tx, outputs);
    var sprout :- SproutBalance(tx);
    Plus(Plus(Plus(Plus(Ok(transparent), sprout),
                   VB.Only(VB.Sapling, SaplingAmount(tx))),
              VB.Only(VB.Orchard, OrchardAmount(tx))),
         VB.Only(VB.Ironwood, IronwoodAmount(tx)))
  }

  /** What a transaction of each version declares for the shielded pools; what it cannot carry is zero. */
  datatype Declared = Declared(joinsplits: seq<JoinSplit>, sapling: int, orchard: int, ironwood: int)

  function All(data: Option<JoinSplitData>): seq<JoinSplit> {
    match data
    case None => []
    case Some(d) => [d.first] + d.rest
  }

  function OrZero(amount: Option<SignedAmount>): int {
    match amount
    case None => 0
    case Some(v) => v
  }

  function DeclaredBy(tx: Transaction): Declared {
    match tx
    case V1(_, _) => Declared([], 0, 0, 0)
    case V2(_, _, j) => Declared(All(j), 0, 0, 0)
    case V3(_, _, j) => Declared(All(j), 0, 0, 0)
    case V4(_, _, j, s) => Declared(All(j), OrZero(s), 0, 0)
    case V5(_, _, s, o) => Declared([], OrZero(s), OrZero(o), 0)
    case V6(_, _, s, o, i) => Declared([], OrZero(s), OrZero(o), OrZero(i))
  }

  function NewTotal(js: seq<JoinSplit>): int {
    if js == [] then 0 else NewTotal(js[..|js| - 1]) + js[|js| - 1].vpubNew
  }

  function OldTotal(js: seq<JoinSplit>): int {
    if js == [] then 0 else OldTotal(js[..|js| - 1]) + js[|js| - 1].vpubOld
  }

  /** All `vpub_new` fields minus all `vpub_old` fields. */
  lemma {:induction false} JoinSplitTotals(js: seq<JoinSplit>)
    ensures A.Total(JoinSplitBalances(js)) == NewTotal(js) - OldTotal(js)
    decreases |js|
  {
    if js != [] {
      JoinSplitTotals(js[..|js| - 1]);
      assert JoinSplitBalances(js)[..|js| - 1] == JoinSplitBalances(js[..|js| - 1]);
    }
  }

  /** The five pool balances as integers. */
  function Balances(tx: Transaction, outputs: Outputs): VB.ValueBalance
    requires Covers(outputs, tx.inputs)
  {
    var d := DeclaredBy(tx);
    VB.ValueBalance(A.Total(InputValues(tx.inputs, outputs)) - A.Total(OutputValues(tx.outputs)),
                    NewTotal(d.joinsplits) - OldTotal(d.joinsplits), d.sapling, d.orchard, 0, d.ironwood)
  }

  /** The accessors read exactly what each version declares. */
  lemma AccessorsExact(tx: Transaction)
    ensures JoinSplits(tx) == DeclaredBy(tx).joinsplits
    ensures A.Total(SproutAmounts(tx)) == NewTotal(JoinSplits(tx)) - OldTotal(JoinSplits(tx))
    ensures SaplingAmount(tx) == DeclaredBy(tx).sapling
    ensures OrchardAmount(tx) == DeclaredBy(tx).orchard
    ensures IronwoodAmount(tx) == DeclaredBy(tx).ironwood
  {
    JoinSplitTotals(JoinSplits(tx));
  }

  predicate TransparentFits(tx: Transaction, outputs: Outputs)
    requires Covers(outputs, tx.inputs)
  {
    && A.Total(InputValues(tx.inputs, outputs)) <= A.MAX_MONEY
    && A.Total(OutputValues(tx.outputs)) <= A.MAX_MONEY
  }

  /** Added from the first on, the amounts never leave the signed range. */
  predicate SignedPrefixes(amounts: seq<SignedAmount>) {
    forall k :: 0 <= k <= |amounts| ==> A.InRange(A.NegativeAllowed, A.Total(amounts[..k]))
  }

  predicate SproutFits(tx: Transaction) {
    SignedPrefixes(SproutAmounts(tx))
  }

  predicate Fits(tx: Transaction, outputs: Outputs)
    requires Covers(outputs, tx.inputs)
  {
    TransparentFits(tx, outputs) && SproutFits(tx)
  }

  lemma TransparentExact(tx: Transaction, outputs: Outputs)
    requires Covers(outputs, tx.inputs)
    ensures TransparentFits(tx, outputs) ==>
              TransparentBalance(tx, outputs) == Ok(VB.Only(VB.Transparent, Balances(tx, outputs).transparent))
    ensures !TransparentFits(tx, outputs) ==>
              && TransparentBalance(tx, outputs).Err?
              && TransparentBalance(tx, outputs).error.PoolError?
              && TransparentBalance(tx, outputs).error.pool == VB.Transparent
              && TransparentBalance(tx, outputs).error.error.SumOverflow?
  {
    var ins, outs := InputValues(tx.inputs, outputs), OutputValues(tx.outputs);
    SumInRange(ins);
    SumInRange(outs);
    hide A.Sum, A.Total, InputValues, OutputValues;
    var r := TransparentBalance(tx, outputs);
    if TransparentFits(tx, outputs) {
      assert r == Ok(VB.Only(VB.Transparent, A.Total(ins) - A.Total(outs)));
    } else if A.Total(ins) > A.MAX_MONEY {
      assert r == Err(VB.PoolError(VB.Transparent, A.Sum(A.NonNegative, ins).error));
    } else {
      assert r == Err(VB.PoolError(VB.Transparent, A.Sum(A.NonNegative, outs).error));
    }
  }

  lemma {:induction false} SproutOnlyTotal(amounts: seq<SignedAmount>)
    ensures VB.SumOf(SproutOnly(amounts)) == VB.Only(VB.Sprout, A.Total(amounts))
    decreases |amounts|
  {
    if amounts != [] {
      var init := amounts[..|amounts| - 1];
      SproutOnlyTotal(init);
      assert SproutOnly(amounts)[..|amounts| - 1] == SproutOnly(init);
    }
  }

  lemma {:induction false} SproutPrefixes(amounts: seq<SignedAmount>)
    ensures VB.PrefixesInRange(A.NegativeAllowed, SproutOnly(amounts)) <==> SignedPrefixes(amounts)
    decreases |amounts|
  {
    if amounts != [] {
      var init := amounts[..|amounts| - 1];
      SproutPrefixes(init);
      assert SproutOnly(amounts)[..|amounts| - 1] == SproutOnly(init);
      SproutOnlyTotal(amounts);
      forall k | 0 <= k <= |init| ensures amounts[..k] == init[..k] {}
      assert amounts[..|amounts|] == amounts;
    }
  }

  lemma SproutSum(amounts: seq<SignedAmount>)
    ensures SignedPrefixes(amounts) ==> VB.Sum(A.NegativeAllowed, SproutOnly(amounts)) == Ok(VB.Only(VB.Sprout, A.Total(amounts)))
    ensures !SignedPrefixes(amounts) ==>
              exists n: nat :: n <= |amounts| && VB.Sum(A.NegativeAllowed, SproutOnly(amounts))
                                         == Err(VB.RangeError(A.NegativeAllowed, VB.Only(VB.Sprout, A.Total(amounts[..n])), VB.Sprout))
  {
    var vs := SproutOnly(amounts);
    SproutPrefixes(amounts);
    SproutOnlyTotal(amounts);
    VB.SumExact(A.NegativeAllowed, vs);
    if !SignedPrefixes(amounts) {
      var n: nat, p :| VB.FirstOverflow(A.NegativeAllowed, vs, n, p)
                    && VB.Sum(A.NegativeAllowed, vs).error == VB.RangeError(A.NegativeAllowed, VB.SumOf(vs[..n]), p);
      assert vs[..n] == SproutOnly(amounts[..n]);
      SproutOnlyTotal(amounts[..n]);
      assert p == VB.Sprout;
    }
  }

  lemma SproutExact(tx: Transaction)
    ensures SproutFits(tx) ==> SproutBalance(tx) == Ok(VB.Only(VB.Sprout, A.Total(SproutAmounts(tx))))
    ensures !SproutFits(tx) ==>
              && SproutBalance(tx).Err? && SproutBalance(tx).error.PoolError?
              && SproutBalance(tx).error.pool == VB.Sprout && SproutBalance(tx).error.error.OutOfRange?
  {
    SproutSum(SproutAmounts(tx));
  }

  /**
   The value balance of a transaction of any version exists exactly when its transparent sums fit and
   its joinsplits never leave the signed range; adding the pools together never fails. Each slot is then
   the integer balance of its own pool, and the deferred slot is zero. A failure is the transparent one
   if there is one, and otherwise the sprout one.
   */
  lemma ValueBalanceExact(tx: Transaction, outputs: Outputs)
    requires Covers(outputs, tx.inputs)
    ensures ValueBalanceFromOutputs(tx, outputs).Ok? <==> Fits(tx, outputs)
    ensures Fits(tx, outputs) ==>
              && ValueBalanceFromOutputs(tx, outputs) == Ok(Balances(tx, outputs))
              && VB.InRange(A.NegativeAllowed, Balances(tx, outputs))
    ensures ValueBalanceFromOutputs(tx, outputs).Err? ==>
              var e := ValueBalanceFromOutputs(tx, outputs).error;
              && e.PoolError?
              && (if TransparentFits(tx, outputs) then e.pool == VB.Sprout && e.error.OutOfRange?
                  else e.pool == VB.Transparent && e.error.SumOverflow?)
  {
    TransparentExact(tx, outputs);
    SproutExact(tx);
    AccessorsExact(tx);
    if Fits(tx, outputs) {
      SumInRange(InputValues(tx.inputs, outputs));
      SumInRange(OutputValues(tx.outputs));
      hide TransparentBalance, SproutBalance, JoinSplits, SaplingAmount, OrchardAmount, IronwoodAmount, DeclaredBy, InputValues, OutputValues;
      PoolsAreDisjoint(tx, Balances(tx, outputs).transparent, Balances(tx, outputs).sprout);
    }
  }

  lemma PoolsAreDisjoint(tx: Transaction, transparent: SignedAmount, sprout: SignedAmount)
    ensures Plus(Plus(Plus(Plus(Ok(VB.Only(VB.Transparent, transparent)), VB.Only(VB.Sprout, sprout)),
                           VB.Only(VB.Sapling, SaplingAmount(tx))),
                      VB.Only(VB.Orchard, OrchardAmount(tx))),
                 VB.Only(VB.Ironwood, IronwoodAmount(tx)))
            == Ok(VB.ValueBalance(transparent, sprout, SaplingAmount(tx), OrchardAmount(tx), 0, IronwoodAmount(tx)))
  {
  }

  // ----- from unspent outputs

  function SpentOutpoints(tx: Transaction): set<OutPoint> {
    set i | 0 <= i < |tx.inputs| && tx.inputs[i].PrevOut? :: tx.inputs[i].outpoint
  }

  /** The outputs a transaction spends, as far as they are known. */
  function SpentOutputs(tx: Transaction, utxos: Utxos): Outputs {
    map o | o in SpentOutpoints(tx) && o in utxos :: utxos[o].output
  }

  predicate CoveredBy(tx: Transaction, utxos: Utxos) {
    SpentOutpoints(tx) <= utxos.Keys
  }

  lemma SpentOutputsCover(tx: Transaction, utxos: Utxos)
    ensures Covers(SpentOutputs(tx, utxos), tx.inputs) <==> CoveredBy(tx, utxos)
  {
    forall i | 0 <= i < |tx.inputs| ensures tx.inputs[i].PrevOut? ==> tx.inputs[i].outpoint in SpentOutpoints(tx) {}
    if Covers(SpentOutputs(tx, utxos), tx.inputs) {
      forall o | o in SpentOutpoints(tx) ensures o in utxos {
        var i :| 0 <= i < |tx.inputs| && tx.inputs[i].PrevOut? && tx.inputs[i].outpoint == o;
        assert Found(tx.inputs[i], SpentOutputs(tx, utxos));
      }
    }
  }

  function ValueBalance(tx: Transaction, utxos: Utxos): (r: Result<VB.ValueBalance, VB.Error>)
    requires CoveredBy(tx, utxos)
    ensures r.Ok? ==> VB.InRange(A.NegativeAllowed, r.value)
  {
    SpentOutputsCover(tx, utxos);
    ValueBalanceFromOutputs(tx, SpentOutputs(tx, utxos))
  }

  function OutputsOf(utxos: Utxos): Outputs {
    map o | o in utxos :: utxos[o].output
  }

  /** Unrelated unspent outputs make no difference: picking out the spent ones gives the same balance as the whole set. */
  lemma OnlySpentOutputsMatter(tx: Transaction, utxos: Utxos)
    requires CoveredBy(tx, utxos)
    ensures Covers(OutputsOf(utxos), tx.inputs)
    ensures ValueBalance(tx, utxos) == ValueBalanceFromOutputs(tx, OutputsOf(utxos))
  {
    SpentOutputsCover(tx, utxos);
    var few, all := SpentOutputs(tx, utxos), OutputsOf(utxos);
    forall i | 0 <= i < |tx.inputs|
      ensures Found(tx.inputs[i], all) && ValueFromOutputs(tx.inputs[i], all) == ValueFromOutputs(tx.inputs[i], few)
    {
      assert Found(tx.inputs[i], few);
    }
    assert InputValues(tx.inputs, few) == InputValues(tx.inputs, all);
  }
}
