# Verified models of history trees, value pools and the shim's routing

This project models three parts of the repository and proves their central properties with Dafny 4.11.
`dafny verify dfyconfig.toml` checks everything.

**History trees.** ZIP-221 commits each block to all earlier ones of its upgrade through a row of Merkle
trees. The full array of their nodes would do; the program stores a size and the roots of the row, works
out from the size where those roots stand, and makes a fresh working tree from them after every block.
The models define the full array, and show that no one can tell the difference.

- `Bits` has powers of two, bit counts and u32 operations whose precondition is that they do not overflow.
- `Mmr` is the mathematical range: perfect trees of falling height and the array of all their nodes.
- `WorkingTree` is the runtime tree that knows only some nodes, and compares it with the unpruned one.
- `PeakSearch` is the loop of `prune`.
- `Upgrades` is the activation schedule; `History` holds the two tree classes.

**Value pools.** ZIP-209 forbids pools to go negative, and the program caps their total as well. `Amount` has
the checked arithmetic and `ValueBalance` its extension to six pools at once. `Transaction` computes what
a transaction takes out of each pool, `Pools` what a block does to them, and `Ledger` follows chains of
blocks together with the outputs nobody has spent yet. `Codec` is the byte form of stored pools, with the
numbers underneath in `Bytes`.

**The shim**. `Grpc` has the framing of messages and the replayed body, `Classify` the verdict on a
transaction, `Intercept` the two request parsers and the check of what the hub returns, `Shim` the
handlers and the safety of whole runs, and `Config` the choice of a transport at startup.

## Reading the models

- Node data, the combination of siblings, transaction parsing and hashing, and protobuf decoding are
  uninterpreted function parameters. Results hold for all of them; none is assumed injective.
- A panic of the original is a precondition where the original demands it of its callers: consecutive
  heights, a Heartwood or later upgrade, outputs for every input, products and sums within the machine
  width (proved at every use). `div_exact` returns `None` where the original panics.
- What the surrounding world decides is a parameter: whether a rebuild or append fails (`Fault`), and
  what the indexer and the hub answer (`World`).
- `push` is not atomic on errors. `History.NonEmptyHistoryTree.Push` says what each kind of error leaves:
  after a failed rebuild the block is in the size and peaks, and only the height is not.
- `History.HistoryTree.PushAll` and `Shim.Shim.HandleAll` are the runs that results about whole runs speak
  of: one call of the modelled operation after the other, as a caller makes them.
- An outpoint in `Ledger` is spent at the end of its block, whatever the order of transactions within
  the block; the result needs no order.

## Where the code is narrower or wider than its description

- `div_exact` is typed as giving a non-negative amount, but a negative divisor is accepted and gives a
  negative one (`Amount.DivExactStaysInRange` has the exact condition).
- `remaining_transaction_value` is described by the sum of the five pools; the code also refuses sums
  that leave the signed range on the way (`ValueBalance.RemainingExact`).
- Absorbing a block at once is weaker than absorbing its transactions one at a time
  (`Pools.DetourIsRefusedOneAtATime`); only the forward implication holds.
- The check of a hub's answer hashes the transaction at the start of the returned bytes and ignores what
  follows it, while the classifier refuses trailing bytes. `Intercept.LookupIsForQuery` states the former.
- A split such as `a@b.c@d` is the only way to read that string as `identity.encryption@gateway` if parts
  may hold separators; the code refuses it. Its rule is a split into parts without separators, and that is
  what `Config.NymAddressExact` states.

## Model

| member | source | states |
|---|---|---|
| Mmr.RangeOfIsRange | zebra/zebra-chain/src/primitives/zcash_history.rs:198-232 | Leaves pushed one by one, merging equal mountains at the right edge, build a row of perfect trees of strictly falling height over exactly those leaves |
| Mmr.ShapeIsBinary | zebra/zebra-chain/src/history_tree.rs:289-350 | One mountain per set bit of the leaf count and at exactly that altitude; `popcount(n)` of them |
| Mmr.NodesClosedForm | zebra/zebra-chain/src/history_tree.rs:291-302 | The number of nodes is twice the leaves minus the number of mountains |
| Mmr.PeakPosOrdered | zebra/zebra-chain/src/history_tree.rs:289-350 | From left to right peak positions strictly increase and lie in the array |
| Mmr.PeaksAreParentless | zebra/zebra-chain/src/history_tree.rs:352-353 | The peak positions are exactly the nodes of the whole array that are no node's child |
| Mmr.PeakEntriesAreNodes | zebra/zebra-chain/src/history_tree.rs:66-73 | The roots of the mountains are the entries of the node array at the peak positions |
| Mmr.AppendedExtendsNodes | zebra/zebra-chain/src/primitives/zcash_history.rs:198-232 | The nodes created by working on peaks alone are exactly those the full node array gains |
| Mmr.AppendedReplacesPeaks | zebra/zebra-chain/src/primitives/zcash_history.rs:198-232 | An append consumes the right-most peaks it merges, and its last node becomes the new right-most peak |
| Mmr.ShapeOfFacts | zebra/zebra-chain/src/history_tree.rs:410-412 | Over `n` leaves: `2n - popcount(n)` nodes, `popcount(n)` mountains, altitudes strictly falling |
| Mmr.PushLeaf | zebra/zebra-chain/src/history_tree.rs:260-265 | A push on `n` leaves creates exactly `1 + trailing_ones(n)` nodes at the end of the array and replaces the last `trailing_ones(n)` peaks by one |
| WorkingTree.UnprunedIsWhole | zebra/zebra-chain/src/history_tree.rs:249-265 | A tree that is never pruned holds the whole node array over all leaves, linked at its peaks |
| WorkingTree.AgreeForever | zebra/zebra-chain/src/history_tree.rs:396-402 | Trees that agree on size and peaks have the same root, create the same nodes for any next leaf, and agree again after it, for ever |
| WorkingTree.RootOfMountain | zebra/zebra-chain/src/primitives/zcash_history.rs:234-239 | The root over one leaf is the leaf; over a larger power of two of them it combines the roots of the first and the second half, in that order |
| WorkingTree.RootOfRow | zebra/zebra-chain/src/primitives/zcash_history.rs:234-239 | Over any other number, whose lowest set bit is `2^k`, the root combines that over all but the last `2^k` leaves with that over the last `2^k` |
| WorkingTree.RebuiltAgrees | zebra/zebra-chain/src/history_tree.rs:353-355 | The tree rebuilt from the peaks alone agrees with the unpruned tree over all leaves |
| WorkingTree.LinksAreKeys | zebra/zebra-chain/src/primitives/zcash_history.rs:128-160 | Walking the saved peaks in key order visits the mountains from left to right |
| WorkingTree.RetainedPeaks | zebra/zebra-chain/src/history_tree.rs:260-265 | Old peaks plus new entries, cut down to the new peak positions, are the new peaks: nothing needed was thrown away before |
| WorkingTree.PeakCount | zebra/zebra-chain/src/history_tree.rs:353-355 | Exactly `popcount(n)` peaks remain |
| PeakSearch.SizeFitsExactly | zebra/zebra-chain/src/history_tree.rs:305-305 | `size + 1` fits 32 bits exactly for trees of fewer than 2^31 leaves |
| PeakSearch.HighestAltitude | zebra/zebra-chain/src/history_tree.rs:304-311 | The bit length of `size + 1` gives the altitude of the highest peak |
| PeakSearch.PeakTest | zebra/zebra-chain/src/history_tree.rs:330-344 | With the mountains before it taken, a position is inside the array exactly when a peak stands there |
| PeakSearch.Descend | zebra/zebra-chain/src/history_tree.rs:330-336 | Dropping to the left child never underflows |
| PeakSearch.TakePeak | zebra/zebra-chain/src/history_tree.rs:338-345 | Taking a peak and jumping to its right sibling never overflows, and the position taken is the next peak |
| PeakSearch.CollectPeaks | zebra/zebra-chain/src/history_tree.rs:289-350 | The loop collects exactly the peak positions for every tree of 1 to 2^31 - 1 leaves, with every u32 operation in range, and terminates |
| Upgrades.ActivationHeightIsLeast | zebra/zebra-chain/src/parameters/network_upgrade.rs:367-380 | With its fallback, an activation height is the least listed height of that upgrade or a later one |
| Upgrades.CurrentReaches | zebra/zebra-chain/src/parameters/network_upgrade.rs:322-330 | An upgrade or a later one is current exactly from that height on |
| History.VersionOf | zebra/zebra-chain/src/history_tree.rs:90-142 | Before NU5, from NU5, and from NU6.3 on: three versions of the tree |
| History.RunIsDeclared | zebra/zebra-chain/src/history_tree.rs:476-515 | The pure course of events, over every schedule and every run of consecutive blocks: no tree exactly while the last height is below Heartwood; else the upgrade current there and exactly the blocks since it became current |
| History.PushRepresents | zebra/zebra-chain/src/history_tree.rs:249-268 | One push on values: append, store all entries, keep the new peaks; the result and the tree rebuilt from it are those of one more leaf |
| History.PushIsTree | zebra/zebra-chain/src/history_tree.rs:249-268 | The same for the fields of a tree, with version and upgrade |
| History.SizeStaysBelow | zebra/zebra-chain/src/history_tree.rs:260-264 | Below 2^31 leaves the size leaves room for the increment |
| History.NonEmptyHistoryTree.FromBlock | zebra/zebra-chain/src/history_tree.rs:159-213 | A tree over one block, at the upgrade current at its height; fails only if the rebuild does |
| History.NonEmptyHistoryTree.FromCache | zebra/zebra-chain/src/history_tree.rs:83-152 | The saved fields are restored with the version the height calls for, and size and peaks of a tree over some blocks give a valid tree over them |
| History.NonEmptyHistoryTree.Clone | zebra/zebra-chain/src/history_tree.rs:425-440 | A clone has the same fields and is again a tree over the same blocks |
| History.NonEmptyHistoryTree.Hash | zebra/zebra-chain/src/history_tree.rs:396-402 | The root is the bagged peaks of the whole array, and it combines the leaf of every block covered, each once and from left to right |
| History.BlocksRootExact | zebra/zebra-chain/src/history_tree.rs:396-402 | The root over blocks from the leaf and sibling functions alone is the root over the leaves of the tree |
| History.NonEmptyHistoryTree.Prune | zebra/zebra-chain/src/history_tree.rs:282-358 | Exactly the peaks are kept, and the inner tree is the one rebuilt from them; on an error the peaks are cut all the same |
| History.NonEmptyHistoryTree.Store | zebra/zebra-chain/src/history_tree.rs:260-264 | New entries go to consecutive positions from the old size, peak or not |
| History.NonEmptyHistoryTree.Take | zebra/zebra-chain/src/history_tree.rs:249-265 | Append, store, prune: the tree is that over one more block, even if only the rebuild fails; a failed append leaves size and peaks alone |
| History.NonEmptyHistoryTree.Restart | zebra/zebra-chain/src/history_tree.rs:238-247 | The activation block of another upgrade replaces everything, or nothing on an error |
| History.NonEmptyHistoryTree.Push | zebra/zebra-chain/src/history_tree.rs:219-269 | A push keeps the invariant and takes the tree to the declared next state; what exactly has changed after each kind of error |
| History.NonEmptyHistoryTree.TryExtend | zebra/zebra-chain/src/history_tree.rs:271-279 | A run of pushes gives the declared state; at the first error the items before it are in the tree, and what the failed push leaves behind |
| History.HistoryTree.FromBlock | zebra/zebra-chain/src/history_tree.rs:451-470 | A new tree exactly from Heartwood on, ready for the next height |
| History.HistoryTree.Push | zebra/zebra-chain/src/history_tree.rs:476-515 | One step of the declared course under any network argument, ready for the next height; when exactly it fails, and that it then keeps the tree it has |
| History.HistoryTree.PushAll | zebra/zebra-chain/src/history_tree.rs:446-515 | A whole run on the object, across Heartwood and every upgrade: the tree is absent exactly while the last height is below Heartwood; else height, network, upgrade, version and covered blocks are those of the last height |
| History.CacheRoundTrip | zebra/zebra-chain/src/history_tree.rs:83-152 | Restoring from saved size, peaks and height and cloning give the same inner tree, although one picks the version from the height and the other from the tree |
| History.SameBlocksSameFuture | zebra/zebra-chain/src/history_tree.rs:363-393 | Any two trees over the same blocks, however obtained, have the same size, peaks, root and future |
| Amount.RangesExact | zebra/zebra-chain/src/amount.rs:552-626 | The three ranges in zatoshis, and the errors for values outside them or outside 64 bits |
| Amount.MulExact | zebra/zebra-chain/src/amount.rs:377-395 | A product succeeds exactly when the integer product is in range, and the two sources of failure give one error |
| Amount.DivExactly | zebra/zebra-chain/src/amount.rs:408-422 | A quotient fails only for divisor zero; it stays in its constraint and is the unique truncated quotient |
| Amount.DivExactStaysInRange | zebra/zebra-chain/src/amount.rs:79-86 | An exact quotient stays non-negative exactly when the divisor is positive or the amount zero |
| Amount.DivExactExact | zebra/zebra-chain/src/amount.rs:79-86 | An exact division succeeds exactly when the divisor is not zero and divides the amount, and gives the quotient |
| Amount.DivExactCounterexample | zebra/zebra-chain/src/amount.rs:79-86 | Dividing 4 by -2 gives a "non-negative" amount of -2 |
| Amount.SumExact | zebra/zebra-chain/src/amount.rs:425-441 | A sum succeeds exactly when every prefix is in range; else it names the first prefix out of range and counts the rest; no other error arises |
| Amount.NonNegativeSum | zebra/zebra-chain/src/amount.rs:425-441 | Without negative items, only the grand total matters |
| Amount.NonNegativeSumPermuted | zebra/zebra-chain/src/amount.rs:425-441 | And their order does not |
| Amount.SignedOrderMatters | zebra/zebra-chain/src/amount.rs:425-441 | The order of signed items does: the same three amounts sum up in one order and overflow in another |
| ValueBalance.ConstrainExact | zebra/zebra-chain/src/value_balance.rs:182-195 | Constraining is the identity in range, and otherwise blames the first offending pool |
| ValueBalance.AddExact | zebra/zebra-chain/src/value_balance.rs:519-534 | Sums are the integer ones put in range, with the same first error |
| ValueBalance.SubExact | zebra/zebra-chain/src/value_balance.rs:569-583 | And so are differences |
| ValueBalance.SumExact | zebra/zebra-chain/src/value_balance.rs:618-627 | A sum of balances succeeds exactly when no pool leaves its range after any item; else it names the first prefix and pool that do |
| ValueBalance.PoolChangeExact | zebra/zebra-chain/src/value_balance.rs:329-345 | A change is accepted exactly when all six integer sums and their total are in `0..=MAX_MONEY`; the pool is then the integer sum |
| ValueBalance.PoolChangeSpelled | zebra/zebra-chain/src/value_balance.rs:329-345 | The same with the six sums, their total and the cap in zatoshis spelled out |
| ValueBalance.RunChangesExact | zebra/zebra-chain/src/value_balance.rs:329-345 | Over any run: accepted exactly when start plus changes so far is acceptable after each, and the pool is start plus all changes |
| ValueBalance.RemainingExact | zebra/zebra-chain/src/value_balance.rs:210-220 | The remaining value exists exactly when the five pools sum to an allowed amount and no partial sum leaves the signed range |
| ValueBalance.RemainingRefusesDetour | zebra/zebra-chain/src/value_balance.rs:210-220 | A balance that meets the consensus rule and is refused |
| Transaction.AccessorsExact | zebra/zebra-chain/src/transaction.rs:1323-1525 | Each pool's accessor reads what the version at hand declares, zero where it cannot carry the pool; the sprout balance is all `vpub_new` minus all `vpub_old` |
| Transaction.TransparentExact | zebra/zebra-chain/src/transaction.rs:1192-1217 | Inputs minus outputs as integers, failing exactly when one of the two sums passes the cap |
| Transaction.SproutSum | zebra/zebra-chain/src/transaction.rs:1370-1372 | The sum over joinsplits, failing exactly when a prefix leaves the signed range, in the sprout pool |
| Transaction.ValueBalanceExact | zebra/zebra-chain/src/transaction.rs:1530-1539 | For every version: fails only when the transparent or sprout sums fail, in that order; adding the pools never fails, each slot is its own pool's balance, deferred is zero |
| Transaction.OnlySpentOutputsMatter | zebra/zebra-chain/src/transaction.rs:1561-1576 | Unrelated unspent outputs make no difference to a balance |
| Pools.ChangeExact | zebra/zebra-chain/src/block.rs:253-271 | A block's change exists exactly when all balances do and no prefix overflows; it is minus their sum, with the deferred slot replaced |
| Pools.BlockConservesMoney | zebra/zebra-chain/src/block.rs:253-271 | Its total is the deferred change minus the five pools of all transactions; overwriting the deferred slot loses nothing |
| Pools.AddTransactionExact | zebra/zebra-chain/src/value_balance.rs:247-262 | A pool absorbs a transaction exactly when its balance exists and leaves an acceptable pool |
| Pools.AddTransparentInputExact | zebra/zebra-chain/src/value_balance.rs:272-288 | An output can be spent exactly when the transparent pool holds its value and the rest is within the cap; both errors |
| Pools.AddEachExact | zebra/zebra-chain/src/value_balance.rs:247-262 | Transactions one at a time: accepted exactly when the pool is acceptable after each |
| Pools.OneAtATimeImpliesBatch | zebra/zebra-chain/src/block.rs:253-271 | Then the block's change never overflows on the way, and absorbing it at once gives the same pool |
| Pools.DetourIsAbsorbedAtOnce | zebra/zebra-chain/src/block.rs:253-271 | A block that takes money out of the sapling pool and puts it back changes nothing, whatever the amount |
| Pools.DetourIsRefusedOneAtATime | zebra/zebra-chain/src/value_balance.rs:247-262 | One transaction at a time it is refused, so the converse fails |
| Ledger.SumNewOutputs | zebra/zebra-chain/src/transparent/utxo.rs:164-250 | The outputs a block creates add exactly their values to a set of unspent outputs that has none of them |
| Ledger.NewOutputsExact | zebra/zebra-chain/src/transparent/utxo.rs:164-250 | A block creates exactly its transactions' outputs, each under its transaction's hash and its index, at the block's height, from a coinbase exactly in the first transaction |
| Ledger.SpentExact | zebra/zebra-chain/src/transaction.rs:566-571 | A block spends exactly the outpoints its transactions' inputs name |
| Ledger.InputsAreSpent | zebra/zebra-chain/src/transparent.rs:240-259 | Inputs are worth what their outpoints are worth; coinbase inputs nothing |
| Ledger.TransparentFlow | zebra/zebra-chain/src/transaction.rs:1192-1217 | A block's transparent balance is what it spends minus what it creates |
| Ledger.AcceptExact | zebra/zebra-chain/src/value_balance.rs:329-345 | A connecting block is accepted exactly when its balance exists and leaves the pools acceptable; the state after it |
| Ledger.UnspentAfter | zebra/zebra-chain/src/transparent/utxo.rs:164-250 | After a block, which outputs are unspent, and what each of them holds |
| Ledger.AcceptKeepsUtxoValue | zebra/zebra-chain/src/value_balance.rs:315-345 | A block keeps the transparent pool equal to the value of the unspent outputs, including those it creates and spends itself |
| Ledger.ChainKeepsPools | zebra/zebra-chain/src/value_balance.rs:315-345 | Over every chain: the transparent pool is the value of the unspent outputs, pools and total stay within the cap, and all money is what the blocks issued |
| Codec.ToBytes | zebra/zebra-chain/src/amount.rs:109-113 | Writes the two's-complement little-endian form into an 8-byte buffer |
| Codec.AmountRoundTrip | zebra/zebra-chain/src/amount.rs:109-122 | Every 64-bit integer comes back from its bytes |
| Codec.BytesRoundTrip | zebra/zebra-chain/src/amount.rs:109-122 | And every 8 bytes from their integer |
| Codec.AmountByteAt | zebra/zebra-chain/src/amount.rs:109-122 | Each of the 8 bytes as a digit of the two's complement, least significant first |
| Codec.DecodeExact | zebra/zebra-chain/src/value_balance.rs:406-473 | Decoding a record of 32, 40 or 48 bytes is constraining the six integers it holds, missing ones zero; any other length is unparsable |
| Codec.PrefixRoundTrip | zebra/zebra-chain/src/value_balance.rs:382-473 | Decoding gives back what was encoded, and a 32- or 40-byte prefix gives it without the missing pools |
| Codec.AcceptedReencodes | zebra/zebra-chain/src/value_balance.rs:382-473 | Whatever decodes encodes to itself followed by zeros |
| Grpc.CarriesExact | zeronym/shim/src/intercept.rs:594-642 | A frame carries a payload exactly when its flag is zero and the declared length reaches exactly its end; the payload is what follows the prefix |
| Grpc.Unary | zeronym/shim/src/intercept.rs:472-487 | The reply has the gRPC content type, and its body is one framed message and a `grpc-status: 0` trailer |
| Grpc.ReplayBody.PollFrame | zeronym/shim/src/intercept.rs:765-780 | Hands out the data if there is any, then the trailers if there are any, then nothing |
| Grpc.ReplayBody.Drain | zeronym/shim/src/intercept.rs:743-780 | Reading to the end gives exactly the buffered bytes and trailers |
| Classify.ClassExact | zeronym/shim/src/classify.rs:99-101 | Bytes are not treated as a migration exactly when all of them are one transaction without an Orchard bundle |
| Intercept.InspectExact | zeronym/shim/src/intercept.rs:580-660 | Up to protobuf decoding, exactly the identity-coded single frames get through, and their payload is decoded |
| Intercept.FilterExact | zeronym/shim/src/intercept.rs:407-423 | The same for the lookup parser |
| Intercept.ParsersAgree | zeronym/shim/src/intercept.rs:407-423 | The two parsers let the same headers and frames through |
| Intercept.EncodingIsRefused | zeronym/shim/src/intercept.rs:580-602 | A first `grpc-encoding` that is not the eight letters of identity is refused by both parsers, whatever the frame |
| Intercept.FrameAloneDecides | zeronym/shim/src/intercept.rs:603-660 | Otherwise the flag and the four length bytes decide, with each reason of refusal |
| Intercept.FramingRoundTrip | zeronym/shim/src/intercept.rs:472-476 | Unwrapping a framed message through either parser gives it back exactly when it is shorter than 2^32 bytes; neither lets a longer one through |
| Intercept.VerdictExact | zeronym/shim/src/intercept.rs:565-660 | A body may pass exactly when it unwraps to bytes that may; the bytes reported are exactly the unwrapped ones |
| Intercept.TransactionDecides | zeronym/shim/src/classify.rs:246-300 | Bytes that are wholly one transaction are kept from the operator exactly for a V5 or V6 with an Orchard bundle; all other bytes are kept |
| Intercept.HexPrefix | zeronym/shim/src/intercept.rs:734-742 | Lower-case hex of the first bytes |
| Intercept.HexSpells | zeronym/shim/src/intercept.rs:734-742 | The hex form, read off its character codes, spells the number of the bytes |
| Intercept.HexIgnoresCase | zeronym/shim/src/intercept.rs:440-443 | Two hex forms are equal up to case exactly when the bytes are equal |
| Intercept.LookupIsForQuery | zeronym/shim/src/intercept.rs:430-444 | True exactly when the bytes parse and their hash is the query in one byte order or the other |
| Shim.Shim.Forward | zeronym/shim/src/intercept.rs:165-173 | Dials, and the indexer reads back exactly the buffered bytes and trailers |
| Shim.Shim.Divert | zeronym/shim/src/intercept.rs:180-283 | Nothing readable, nothing at all, or the exact bytes to the hub; the reply to each of the hub's answers, with error code 0 only for what it took |
| Shim.Shim.HandleSend | zeronym/shim/src/intercept.rs:102-174 | The whole handler against its specification in terms of what the body unwraps to; without a hub, any readable body is forwarded unchanged |
| Shim.UnreadSend | zeronym/shim/src/intercept.rs:108-131 | A body over 4 MiB, broken off or stalled: its status, and no one is contacted |
| Shim.VersionRoutes | zeronym/shim/src/intercept.rs:152-173 | With a hub, a body that is wholly one transaction: a V5 or V6 with an Orchard bundle goes to the hub and never to the operator, every other is handed on unchanged |
| Shim.UnparsedIsKept | zeronym/shim/src/intercept.rs:152-214 | With a hub, anything else never reaches the operator |
| Shim.Shim.HandleGet | zeronym/shim/src/intercept.rs:305-400 | The lookup handler against its specification |
| Shim.UnreadGet | zeronym/shim/src/intercept.rs:317-334 | A lookup body over 1024 bytes, broken off or stalled: its status, and no one is contacted |
| Shim.LookupOutcome | zeronym/shim/src/intercept.rs:336-400 | With a hub, a lookup of 32 bytes asks the hub for exactly those; the reply to each of its answers; any other length is refused |
| Shim.Shim.HandleAll | zeronym/shim/src/intercept.rs:102-400 | Requests in turn: the trace is what each was specified to do, and with a hub every contact in it is safe for one of the requests |
| Shim.HandledSafely | zeronym/shim/src/intercept.rs:102-400 | Each contact a handler makes with a hub configured is one it may make |
| Shim.RunsAreSafe | zeronym/shim/src/intercept.rs:102-283 | Over all runs and interleavings with a hub: the indexer hears only of transactions that may pass, byte for byte; the hub only non-empty classified bytes; no lookup dials the indexer |
| Shim.OnlyWhatWasAskedFor | zeronym/shim/src/intercept.rs:369-390 | A transaction is handed out only for a query that is its hash in some byte order |
| Config.TrimExact | zeronym/shim/src/config.rs:304-309 | Trimming takes exactly the white space around an entry |
| Config.WhiteInAscii | zeronym/shim/src/config.rs:304-309 | Blank, tab and line ends are white, printing ASCII characters are not |
| Config.NymAddressExact | zeronym/shim/src/config.rs:343-355 | Accepted exactly when an `identity.encryption@gateway` split into separator-free parts exists |
| Config.SplitIsUnique | zeronym/shim/src/config.rs:343-355 | And there is only one |
| Config.SelectHub | zeronym/shim/src/config.rs:293-336 | The selection loop meets the declarative specification, with the first offending entry named |
| Config.SelectionSpelled | zeronym/shim/src/config.rs:293-336 | The outcome of every combination of settings in terms of the texts between the white space: addresses trimmed and in order, or the first that is malformed or a repetition |
| Config.SelectionIsUnique | zeronym/shim/src/config.rs:293-336 | The specification admits one result |
| Config.NymExact | zeronym/shim/src/config.rs:317-334 | The mixnet is selected exactly for non-empty, well-formed, distinct trimmed entries and no HTTP hub; in order |
| Config.BlanksChangeNothing | zeronym/shim/src/config.rs:293-309 | Blank entries inserted anywhere change nothing |

## Left out

- The crate behind the inner tree is not part of this model. `WorkingTree.Append`, `WorkingTree.Root` and `WorkingTree.NewFromCache` have the meaning ZIP-221 gives them: append a leaf, merge equal peaks at the right edge, bag the peaks from left to right.
- History.NonEmptyHistoryTree.Clone: a rebuild error inside a clone is a panic in the original and is not modelled.
- History.NonEmptyHistoryTree.FromCache: no peaks at all, which the crate cannot build a tree from, is excluded.
- Shim.Shim.HandleSend: headers sent on to the indexer, error texts and log lines are not modelled; a reply is its kind, status and payload.
- The extra extensions of the padded entry encoding in `zcash_history.rs`, and the leaf contents per version: uninterpreted.
- The `ZFuture` upgrade, which only exists in unstable builds.
- In-place setters of single pools and `AddAssign`/`SubAssign` on results: they only wrap the modelled additions, and the deferred setter is modelled as the replacement of one slot.
- `Amount::checked_sub`, conversions between integer types other than i128, comparison across constraints, and conversions to curve scalars: range checks already modelled, or arithmetic of other crates.
- Evidence gathered for log lines by `classify_with_evidence`: it does not enter the verdict.
- `Input::value`, `value_from_ordered_utxos` and the ordered index of new outputs: one lookup around `value_from_outputs`; the order index is not used by the pools.
- More than 2^32 outputs in one transaction, a panic in the original, which an unbounded index does not have.
- The state's own contextual checks (spend order, coinbase maturity, script validity): `Ledger.Connects` only asks for new outpoints and no double spend.
- Path routing, streaming pass-through of other methods, timeouts as clocks, TLS, sockets and the mixnet client in the shim.
- Parsing of command lines and environment variables, and of socket addresses.
- Display, Debug and serde code, test helpers and benches.
