/** The history tree of `history_tree.rs`: peaks and a size, rebuilt after every push, restarted at every upgrade. */
module History {
  import opened Wrappers
  import opened Bits
  import opened Mmr
  import opened WorkingTree
  import opened Upgrades
  import PeakSearch

  /** A block with its roots; `digest` stands for everything a leaf is computed from but the height. */
  datatype Block = Block(height: nat, digest: int)

  datatype Version = PreOrchard | OrchardOnward | IronwoodOnward

  /** The tree version an upgrade calls for; there is no history tree before Heartwood. */
  function VersionOf(nu: NetworkUpgrade): (v: Version)
    requires Rank(Heartwood) <= Rank(nu)
    ensures v.PreOrchard? <==> Rank(nu) < Rank(Nu5)
    ensures v.IronwoodOnward? <==> Rank(Nu6_3) <= Rank(nu)
  {
    match nu
    case Heartwood | Canopy => PreOrchard
    case Nu5 | Nu6 | Nu6_1 | Nu6_2 => OrchardOnward
    case _ => IronwoodOnward
  }

  /** The uninterpreted parts: how a block becomes a leaf, and how two siblings become their parent. */
  datatype Scheme<!D> = Scheme(
    leaf: (Version, NetworkUpgrade, Block) -> D,
    combine: (Version, NetworkUpgrade, D, D) -> D)

  function CombinerOf<D>(s: Scheme<D>, v: Version, nu: NetworkUpgrade): Combiner<D> {
    (a: D, b: D) => s.combine(v, nu, a, b)
  }

  function LeafData<D>(s: Scheme<D>, nu: NetworkUpgrade, blocks: seq<Block>): (leaves: seq<D>)
    requires Rank(Heartwood) <= Rank(nu)
    ensures |leaves| == |blocks|
  {
    if blocks == [] then []
    else LeafData(s, nu, blocks[..|blocks| - 1]) + [s.leaf(VersionOf(nu), nu, blocks[|blocks| - 1])]
  }

  lemma LeafDataSnoc<D>(s: Scheme<D>, nu: NetworkUpgrade, blocks: seq<Block>, b: Block)
    requires Rank(Heartwood) <= Rank(nu)
    ensures LeafData(s, nu, blocks + [b]) == LeafData(s, nu, blocks) + [s.leaf(VersionOf(nu), nu, b)]
  {
    assert (blocks + [b])[..|blocks|] == blocks;
  }

  lemma {:induction false} LeafDataSlice<D>(s: Scheme<D>, nu: NetworkUpgrade, blocks: seq<Block>, i: nat, j: nat)
    requires Rank(Heartwood) <= Rank(nu) && i <= j <= |blocks|
    ensures LeafData(s, nu, blocks)[i..j] == LeafData(s, nu, blocks[i..j])
    decreases |blocks|
  {
    if blocks != [] {
      var last := |blocks| - 1;
      var init := blocks[..last];
      if j <= last {
        LeafDataSlice(s, nu, init, i, j);
        assert init[i..j] == blocks[i..j];
      } else if i < j {
        LeafDataSlice(s, nu, init, i, last);
        assert init[i..last] == blocks[i..j][..|blocks[i..j]| - 1];
      }
    }
  }

  /** The root over blocks in terms of the scheme alone: each block's leaf once, siblings from left to right. */
  function BlocksRoot<D>(s: Scheme<D>, nu: NetworkUpgrade, blocks: seq<Block>): D
    requires Rank(Heartwood) <= Rank(nu) && blocks != []
    decreases |blocks|
  {
    if |blocks| == 1 then s.leaf(VersionOf(nu), nu, blocks[0])
    else
      var i := Division(|blocks|);
      s.combine(VersionOf(nu), nu, BlocksRoot(s, nu, blocks[..i]), BlocksRoot(s, nu, blocks[i..]))
  }

  lemma {:induction false} BlocksRootExact<D>(s: Scheme<D>, nu: NetworkUpgrade, blocks: seq<Block>)
    requires Rank(Heartwood) <= Rank(nu) && blocks != []
    ensures BlocksRoot(s, nu, blocks) == RootOver(CombinerOf(s, VersionOf(nu), nu), LeafData(s, nu, blocks))
    decreases |blocks|
  {
    var leaves := LeafData(s, nu, blocks);
    if |blocks| == 1 {
      LeafDataSnoc(s, nu, [], blocks[0]);
      assert blocks == [] + [blocks[0]];
    } else {
      var i := Division(|blocks|);
      BlocksRootExact(s, nu, blocks[..i]);
      BlocksRootExact(s, nu, blocks[i..]);
      LeafDataSlice(s, nu, blocks, 0, i);
      LeafDataSlice(s, nu, blocks, i, |blocks|);
      assert leaves[0..i] == leaves[..i] && leaves[i..|blocks|] == leaves[i..];
      assert blocks[0..i] == blocks[..i] && blocks[i..|blocks|] == blocks[i..];
      RootOfDivision(CombinerOf(s, VersionOf(nu), nu), leaves, i);
    }
  }

  // ----- the pure course of events: which blocks the tree covers

  /** The upgrade the tree belongs to, and the blocks it is a tree over. */
  datatype Epoch = Epoch(upgrade: NetworkUpgrade, blocks: seq<Block>)

  function FirstEpoch(net: Network, b: Block): Option<Epoch>
    requires 0 in net.activations
  {
    match ActivationHeight(net, Heartwood)
    case None => None
    case Some(a) => if b.height < a then None else Some(Epoch(Current(net, b.height), [b]))
  }

  function PushEpoch(net: Network, e: Option<Epoch>, b: Block): Option<Epoch>
    requires 0 in net.activations
  {
    match ActivationHeight(net, Heartwood)
    case None => e
    case Some(a) =>
      if b.height < a then e
      else if b.height == a || e.None? || Current(net, b.height) != e.value.upgrade then
        Some(Epoch(Current(net, b.height), [b]))
      else
        Some(Epoch(e.value.upgrade, e.value.blocks + [b]))
  }

  function Extend(net: Network, e: Option<Epoch>, blocks: seq<Block>): Option<Epoch>
    requires 0 in net.activations
  {
    if blocks == [] then e
    else PushEpoch(net, Extend(net, e, blocks[..|blocks| - 1]), blocks[|blocks| - 1])
  }

  predicate Consecutive(blocks: seq<Block>) {
    forall i :: 0 <= i < |blocks| ==> blocks[i].height == blocks[0].height + i
  }

  /** The tree after a run of blocks, in one glance: the blocks since the current upgrade became current. */
  function Declared(net: Network, blocks: seq<Block>): Option<Epoch>
    requires 0 in net.activations && blocks != [] && Consecutive(blocks)
  {
    var h := blocks[|blocks| - 1].height;
    if Rank(Current(net, h)) < Rank(Heartwood) then
      None
    else
      Some(Epoch(Current(net, h), blocks[Since(net, blocks)..]))
  }

  /** How many blocks of the run came before the current upgrade became current. */
  function Since(net: Network, blocks: seq<Block>): (k: nat)
    requires 0 in net.activations && blocks != [] && Consecutive(blocks)
    ensures k < |blocks|
  {
    var a := CurrentActivation(net, blocks[|blocks| - 1].height);
    if a <= blocks[0].height then 0 else a - blocks[0].height
  }

  /**
   Over every upgrade schedule and every run of consecutive blocks, the tree is absent exactly while the
   last height is below Heartwood; otherwise it belongs to the upgrade current at the last height and
   covers exactly the blocks of the run since that upgrade became current.
   */
  lemma {:induction false} RunIsDeclared(net: Network, blocks: seq<Block>)
    requires ValidSchedule(net) && blocks != [] && Consecutive(blocks)
    ensures Extend(net, FirstEpoch(net, blocks[0]), blocks[1..]) == Declared(net, blocks)
    decreases |blocks|
  {
    var first, b := blocks[0], blocks[|blocks| - 1];
    if |blocks| == 1 {
      assert blocks == [first] && blocks[1..] == [];
      ExtendNone(net, FirstEpoch(net, first));
      FirstIsDeclared(net, first);
    } else {
      var init := blocks[..|blocks| - 1];
      PushKeepsDeclared(net, blocks);
      SuffixSnoc(blocks, 1);
      hide PushEpoch, Declared, FirstEpoch, ValidSchedule, Consecutive, Extend;
      RunIsDeclared(net, init);
      ExtendSnoc(net, FirstEpoch(net, first), init[1..], b);
    }
  }

  lemma ExtendNone(net: Network, e: Option<Epoch>)
    requires 0 in net.activations
    ensures Extend(net, e, []) == e
  {
  }

  lemma FirstIsDeclared(net: Network, b: Block)
    requires ValidSchedule(net)
    ensures FirstEpoch(net, b) == Declared(net, [b])
  {
    CurrentReaches(net, Heartwood, b.height);
    assert [b][0..] == [b];
  }

  lemma ExtendSnoc(net: Network, e: Option<Epoch>, blocks: seq<Block>, b: Block)
    requires 0 in net.activations
    ensures Extend(net, e, blocks + [b]) == PushEpoch(net, Extend(net, e, blocks), b)
  {
    assert (blocks + [b])[..|blocks|] == blocks;
  }

  lemma PushKeepsDeclared(net: Network, blocks: seq<Block>)
    requires ValidSchedule(net) && |blocks| > 1 && Consecutive(blocks)
    ensures Consecutive(blocks[..|blocks| - 1])
    ensures PushEpoch(net, Declared(net, blocks[..|blocks| - 1]), blocks[|blocks| - 1]) == Declared(net, blocks)
  {
    if Rank(Current(net, blocks[|blocks| - 1].height)) < Rank(Heartwood) {
      StayAbsent(net, blocks);
    } else if blocks[|blocks| - 1].height in net.activations {
      Restart(net, blocks);
    } else {
      Continue(net, blocks);
    }
  }

  lemma StayAbsent(net: Network, blocks: seq<Block>)
    requires ValidSchedule(net) && |blocks| > 1 && Consecutive(blocks)
    requires Rank(Current(net, blocks[|blocks| - 1].height)) < Rank(Heartwood)
    ensures PushEpoch(net, Declared(net, blocks[..|blocks| - 1]), blocks[|blocks| - 1]) == None == Declared(net, blocks)
  {
    var init, b := blocks[..|blocks| - 1], blocks[|blocks| - 1];
    CurrentReaches(net, Heartwood, init[|init| - 1].height);
    CurrentReaches(net, Heartwood, b.height);
  }

  lemma Restart(net: Network, blocks: seq<Block>)
    requires ValidSchedule(net) && |blocks| > 1 && Consecutive(blocks)
    requires blocks[|blocks| - 1].height in net.activations
    requires Rank(Heartwood) <= Rank(Current(net, blocks[|blocks| - 1].height))
    ensures
      var init, b := blocks[..|blocks| - 1], blocks[|blocks| - 1];
      PushEpoch(net, Declared(net, init), b) == Some(Epoch(Current(net, b.height), [b])) == Declared(net, blocks)
  {
    var init, b := blocks[..|blocks| - 1], blocks[|blocks| - 1];
    var h := init[|init| - 1].height;
    CurrentReaches(net, Heartwood, b.height);
    CurrentReaches(net, Heartwood, h);
    SameUpgradeSameActivation(net, h, b.height);
    assert CurrentActivation(net, b.height) == b.height == blocks[0].height + |blocks| - 1;
    assert blocks[|blocks| - 1..] == [b];
  }

  lemma Continue(net: Network, blocks: seq<Block>)
    requires ValidSchedule(net) && |blocks| > 1 && Consecutive(blocks)
    requires blocks[|blocks| - 1].height !in net.activations
    requires Rank(Heartwood) <= Rank(Current(net, blocks[|blocks| - 1].height))
    ensures PushEpoch(net, Declared(net, blocks[..|blocks| - 1]), blocks[|blocks| - 1]) == Declared(net, blocks)
  {
    var init, b := blocks[..|blocks| - 1], blocks[|blocks| - 1];
    SinceStays(net, blocks);
    SuffixSnoc(blocks, Since(net, blocks));
    hide CurrentActivation, Since, PushEpoch, Consecutive, ValidSchedule;
    ContinuePush(net, Epoch(Current(net, b.height), init[Since(net, blocks)..]), b);
  }

  /** Without an activation, a new block leaves the current upgrade and its first block as they are. */
  lemma SinceStays(net: Network, blocks: seq<Block>)
    requires ValidSchedule(net) && |blocks| > 1 && Consecutive(blocks)
    requires blocks[|blocks| - 1].height !in net.activations
    ensures
      var init, b := blocks[..|blocks| - 1], blocks[|blocks| - 1];
      Consecutive(init) && Current(net, init[|init| - 1].height) == Current(net, b.height) && Since(net, init) == Since(net, blocks)
  {
    var init := blocks[..|blocks| - 1];
    assert blocks[|blocks| - 1].height == init[|init| - 1].height + 1;
    NextHeight(net, init[|init| - 1].height);
  }

  lemma SuffixSnoc<X>(s: seq<X>, k: nat)
    requires k < |s|
    ensures s[k..] == s[..|s| - 1][k..] + [s[|s| - 1]]
  {
  }

  lemma ContinuePush(net: Network, e: Epoch, b: Block)
    requires ValidSchedule(net) && b.height !in net.activations
    requires e.upgrade == Current(net, b.height) && Rank(Heartwood) <= Rank(e.upgrade)
    ensures PushEpoch(net, Some(e), b) == Some(Epoch(e.upgrade, e.blocks + [b]))
  {
    CurrentReaches(net, Heartwood, b.height);
    ActivationHeightIsLeast(net, Heartwood);
  }

  // ----- the tree

  datatype InnerHistoryTree<D> = InnerHistoryTree(version: Version, upgrade: NetworkUpgrade, tree: Tree<D>)

  datatype HistoryTreeError = InnerError | IOError

  /** What the crate does to one call: nothing, an append error that leaves `debris`, or a rebuild error. */
  datatype Fault<D> = NoFault | AppendFails(debris: Tree<D>) | CacheFails

  /** `size`, `peaks` and `tree` are those of the whole node array over `leaves`. */
  ghost predicate Represents<D>(c: Combiner<D>, leaves: seq<D>, size: nat, peaks: map<nat, Entry<D>>, tree: Tree<D>) {
    && leaves != []
    && size == |Nodes(c, leaves)|
    && peaks == PeakMap(c, leaves)
    && Agree(tree, Whole(c, leaves))
  }

  /** Past Heartwood, the current upgrade became current above genesis, and the next height is past it too. */
  lemma AfterHeartwood(net: Network, h: nat)
    requires ValidSchedule(net) && Rank(Heartwood) <= Rank(Current(net, h))
    ensures Rank(Heartwood) <= Rank(Current(net, h + 1)) && CurrentActivation(net, h) > 0
    ensures ActivationHeight(net, Heartwood).Some? && ActivationHeight(net, Heartwood).value <= h
    ensures Current(net, h + 1) == Current(net, h) ==> CurrentActivation(net, h + 1) == CurrentActivation(net, h)
  {
    CurrentReaches(net, Heartwood, h);
    CurrentReaches(net, Heartwood, h + 1);
    SameUpgradeSameActivation(net, h, h + 1);
  }

  lemma PushEpochPastHeartwood(net: Network, e: Epoch, h: nat, b: Block)
    requires ValidSchedule(net) && e.upgrade == Current(net, h) && Rank(Heartwood) <= Rank(e.upgrade)
    requires b.height == h + 1
    ensures Rank(Heartwood) <= Rank(Current(net, b.height))
    ensures PushEpoch(net, Some(e), b) ==
            Some(if Current(net, b.height) != e.upgrade then Epoch(Current(net, b.height), [b])
                 else Epoch(e.upgrade, e.blocks + [b]))
  {
    AfterHeartwood(net, h);
  }

  /**
   One push, on values: append to the tree, store every new entry, keep the new peaks. The result
   represents one more leaf, and so does the tree rebuilt from the kept peaks alone.
   */
  lemma PushRepresents<D>(c: Combiner<D>, leaves: seq<D>, size: nat, peaks: map<nat, Entry<D>>, tree: Tree<D>, x: D,
                          after: Tree<D>, es: seq<Entry<D>>,
                          more: seq<D>, stored: map<nat, Entry<D>>, kept: map<nat, Entry<D>>)
    requires Represents(c, leaves, size, peaks, tree) && |leaves| + 1 < 0x8000_0000
    requires Append(c, tree, x) == (after, es)
    requires more == leaves + [x] && stored == StoreAt(peaks, size, es)
    requires kept == Retain(stored, PeakPositions(ShapeOf(more)))
    ensures size + |es| == |Nodes(c, more)| < U32_LIMIT
    ensures PeakPositions(ShapeOf(more)) <= stored.Keys && kept.Keys != {}
    ensures Represents(c, more, size + |es|, kept, after)
    ensures Represents(c, more, size + |es|, kept, NewFromCache(size + |es|, kept))
  {
    hide Append, Agree, Whole, Appended, PeakEntries, RangeOf, ShapeOf, Nodes, PeakMap, Retain, StoreAt, PeakPositions, NewFromCache;
    AgreeForever(c, tree, Whole(c, leaves), x);
    WholeAppend(c, leaves, x, Appended(c, PeakEntries(c, RangeOf(leaves)), Entry(x, 1)));
    assert Nodes(c, more) == Nodes(c, leaves) + es && Agree(after, Whole(c, more));
    RetainedPeaks(c, leaves, x, es);
    SizeStaysBelow(c, more);
    RebuiltAgrees(c, more);
  }

  lemma SizeStaysBelow<D>(c: Combiner<D>, leaves: seq<D>)
    requires |leaves| < 0x8000_0000
    ensures |Nodes(c, leaves)| < U32_LIMIT - 1
  {
    ShapeOfFacts(c, leaves);
    PeakSearch.SizeFitsExactly(ShapeOf(leaves));
  }

  /** No caller can tell these fields from the unpruned tree over `blocks`. */
  ghost predicate IsTree<D>(s: Scheme<D>, nu: NetworkUpgrade, inner: InnerHistoryTree<D>, size: nat,
                            peaks: map<nat, Entry<D>>, blocks: seq<Block>) {
    && Rank(Heartwood) <= Rank(nu)
    && inner.version == VersionOf(nu) && inner.upgrade == nu
    && Represents(CombinerOf(s, VersionOf(nu), nu), LeafData(s, nu, blocks), size, peaks, inner.tree)
  }

  /** One push within an upgrade, on values: with the tree as appended, and with the tree rebuilt. */
  lemma PushIsTree<D>(s: Scheme<D>, nu: NetworkUpgrade, inner: InnerHistoryTree<D>, size: nat,
                      peaks: map<nat, Entry<D>>, blocks: seq<Block>, b: Block, tree: Tree<D>, es: seq<Entry<D>>)
    requires IsTree(s, nu, inner, size, peaks, blocks) && |blocks| + 1 < 0x8000_0000
    requires Usable(inner.tree)
    requires Append(CombinerOf(s, inner.version, inner.upgrade), inner.tree, s.leaf(inner.version, inner.upgrade, b)) == (tree, es)
    ensures
      var leaves := LeafData(s, nu, blocks + [b]);
      var stored := StoreAt(peaks, size, es);
      var kept := Retain(stored, PeakPositions(ShapeOf(leaves)));
      && size + |es| == |Nodes(CombinerOf(s, VersionOf(nu), nu), leaves)| < U32_LIMIT
      && PeakPositions(ShapeOf(leaves)) <= stored.Keys && kept.Keys != {}
      && IsTree(s, nu, inner.(tree := tree), size + |es|, kept, blocks + [b])
      && IsTree(s, nu, InnerHistoryTree(inner.version, nu, NewFromCache(size + |es|, kept)), size + |es|, kept, blocks + [b])
  {
    var leaves := LeafData(s, nu, blocks + [b]);
    var stored := StoreAt(peaks, size, es);
    PushFields(s, nu, inner, size, peaks, blocks, b, tree, es, leaves, stored, Retain(stored, PeakPositions(ShapeOf(leaves))));
  }

  lemma PushFields<D>(s: Scheme<D>, nu: NetworkUpgrade, inner: InnerHistoryTree<D>, size: nat, peaks: map<nat, Entry<D>>,
                      blocks: seq<Block>, b: Block, tree: Tree<D>, es: seq<Entry<D>>,
                      more: seq<D>, stored: map<nat, Entry<D>>, kept: map<nat, Entry<D>>)
    requires IsTree(s, nu, inner, size, peaks, blocks) && |blocks| + 1 < 0x8000_0000
    requires Usable(inner.tree)
    requires Append(CombinerOf(s, inner.version, inner.upgrade), inner.tree, s.leaf(inner.version, inner.upgrade, b)) == (tree, es)
    requires more == LeafData(s, nu, blocks + [b]) && stored == StoreAt(peaks, size, es)
    requires kept == Retain(stored, PeakPositions(ShapeOf(more)))
    ensures size + |es| == |Nodes(CombinerOf(s, VersionOf(nu), nu), more)| < U32_LIMIT
    ensures PeakPositions(ShapeOf(more)) <= stored.Keys && kept.Keys != {}
    ensures IsTree(s, nu, inner.(tree := tree), size + |es|, kept, blocks + [b])
    ensures IsTree(s, nu, InnerHistoryTree(inner.version, nu, NewFromCache(size + |es|, kept)), size + |es|, kept, blocks + [b])
  {
    var c, leaves, x := CombinerOf(s, VersionOf(nu), nu), LeafData(s, nu, blocks), s.leaf(VersionOf(nu), nu, b);
    LeafDataSnoc(s, nu, blocks, b);
    hide Represents, StoreAt, Retain, Append, Nodes, NewFromCache, PeakPositions, ShapeOf, LeafData, CombinerOf, Usable, VersionOf;
    assert Append(c, inner.tree, x) == (tree, es);
    PushRepresents(c, leaves, size, peaks, inner.tree, x, tree, es, more, stored, kept);
  }

  lemma IsTreeFacts<D>(s: Scheme<D>, nu: NetworkUpgrade, inner: InnerHistoryTree<D>, size: nat,
                       peaks: map<nat, Entry<D>>, blocks: seq<Block>)
    requires IsTree(s, nu, inner, size, peaks, blocks)
    ensures Rank(Heartwood) <= Rank(nu) && Usable(inner.tree) && blocks != []
  {
  }

  /** The blocks are those up to `height`, all under the upgrade current there. */
  ghost predicate IsTimely(net: Network, nu: NetworkUpgrade, height: nat, blocks: seq<Block>) {
    && ValidSchedule(net)
    && height <= MAX_HEIGHT
    && nu == Current(net, height)
    && |blocks| <= height - CurrentActivation(net, height) + 1
    && forall i :: 0 <= i < |blocks| ==> blocks[i].height == height + 1 - |blocks| + i
  }

  lemma TimelyFacts(net: Network, nu: NetworkUpgrade, height: nat, blocks: seq<Block>)
    requires IsTimely(net, nu, height, blocks) && Rank(Heartwood) <= Rank(nu)
    ensures ValidSchedule(net) && 0 in net.activations
    ensures nu == Current(net, height) && |blocks| <= height <= MAX_HEIGHT
  {
    AfterHeartwood(net, height);
  }

  lemma StaysTimely(net: Network, nu: NetworkUpgrade, height: nat, blocks: seq<Block>, b: Block)
    requires IsTimely(net, nu, height, blocks) && Rank(Heartwood) <= Rank(nu)
    requires b.height == height + 1 <= MAX_HEIGHT && Current(net, b.height) == nu
    ensures IsTimely(net, nu, b.height, blocks + [b])
  {
    AfterHeartwood(net, height);
  }

  /** `size` and `peaks` are those of the tree over `blocks`, whatever has become of the inner tree. */
  ghost predicate HoldsPeaks<D>(s: Scheme<D>, nu: NetworkUpgrade, size: nat, peaks: map<nat, Entry<D>>, blocks: seq<Block>) {
    && Rank(Heartwood) <= Rank(nu) && blocks != []
    && size == |Nodes(CombinerOf(s, VersionOf(nu), nu), LeafData(s, nu, blocks))|
    && peaks == PeakMap(CombinerOf(s, VersionOf(nu), nu), LeafData(s, nu, blocks))
  }

  lemma TreeHoldsPeaks<D>(s: Scheme<D>, nu: NetworkUpgrade, inner: InnerHistoryTree<D>, size: nat,
                          peaks: map<nat, Entry<D>>, blocks: seq<Block>)
    requires IsTree(s, nu, inner, size, peaks, blocks)
    ensures HoldsPeaks(s, nu, size, peaks, blocks)
  {
  }

  /** Size and peaks are all it takes: the inner tree made from them is the right one. */
  lemma PeaksMakeTree<D>(s: Scheme<D>, net: Network, nu: NetworkUpgrade, size: nat, peaks: map<nat, Entry<D>>,
                         height: nat, blocks: seq<Block>)
    requires HoldsPeaks(s, nu, size, peaks, blocks) && IsTimely(net, nu, height, blocks)
    ensures peaks.Keys != {}
    ensures IsTree(s, nu, InnerHistoryTree(VersionOf(nu), nu, NewFromCache(size, peaks)), size, peaks, blocks)
  {
    TimelyFacts(net, nu, height, blocks);
    SizeStaysBelow(CombinerOf(s, VersionOf(nu), nu), LeafData(s, nu, blocks));
    RebuiltAgrees(CombinerOf(s, VersionOf(nu), nu), LeafData(s, nu, blocks));
  }

  class NonEmptyHistoryTree<D> {
    const scheme: Scheme<D>
    var network: Network
    var networkUpgrade: NetworkUpgrade
    var inner: InnerHistoryTree<D>
    var size: u32
    var peaks: map<u32, Entry<D>>
    var currentHeight: nat
    /** The blocks the tree covers. */
    ghost var blocks: seq<Block>

    ghost function C(): Combiner<D>
      reads this`networkUpgrade
      requires Rank(Heartwood) <= Rank(networkUpgrade)
    {
      CombinerOf(scheme, VersionOf(networkUpgrade), networkUpgrade)
    }

    ghost function Leaves(): seq<D>
      reads this`networkUpgrade, this`blocks
      requires Rank(Heartwood) <= Rank(networkUpgrade)
    {
      LeafData(scheme, networkUpgrade, blocks)
    }

    ghost predicate Structured()
      reads this`networkUpgrade, this`inner, this`size, this`peaks, this`blocks
    {
      IsTree(scheme, networkUpgrade, inner, size, peaks, blocks)
    }

    ghost predicate Timely()
      reads this`network, this`networkUpgrade, this`currentHeight, this`blocks
    {
      IsTimely(network, networkUpgrade, currentHeight, blocks)
    }

    ghost predicate Valid()
      reads this
    {
      Structured() && Timely()
    }

    ghost function View(): Option<Epoch>
      reads this
    {
      Some(Epoch(networkUpgrade, blocks))
    }

    constructor (scheme: Scheme<D>, network: Network, networkUpgrade: NetworkUpgrade, inner: InnerHistoryTree<D>,
                 size: u32, peaks: map<u32, Entry<D>>, currentHeight: nat, ghost blocks: seq<Block>)
      ensures this.scheme == scheme && this.network == network && this.networkUpgrade == networkUpgrade
      ensures this.inner == inner && this.size == size && this.peaks == peaks
      ensures this.currentHeight == currentHeight && this.blocks == blocks
    {
      this.scheme, this.network, this.networkUpgrade := scheme, network, networkUpgrade;
      this.inner, this.size, this.peaks := inner, size, peaks;
      this.currentHeight, this.blocks := currentHeight, blocks;
    }

    /** A tree over one block, under the upgrade current at its height. */
    static method FromBlock(scheme: Scheme<D>, network: Network, block: Block, cacheFails: bool)
      returns (r: Result<NonEmptyHistoryTree<D>, HistoryTreeError>)
      requires ValidSchedule(network) && block.height <= MAX_HEIGHT
      requires Rank(Heartwood) <= Rank(Current(network, block.height))
      ensures r.Err? <==> cacheFails
      ensures r.Ok? ==> fresh(r.value) && r.value.Valid() && r.value.scheme == scheme && r.value.network == network
      ensures r.Ok? ==> r.value.currentHeight == block.height
      ensures r.Ok? ==> r.value.View() == Some(Epoch(Current(network, block.height), [block]))
    {
      var nu := Current(network, block.height);
      var v := VersionOf(nu);
      var leaf := scheme.leaf(v, nu, block);
      var peaks: map<u32, Entry<D>> := map[0 := Entry(leaf, 1)];
      if cacheFails {
        return Err(IOError);
      }
      assert 0 in peaks.Keys;
      var inner := InnerHistoryTree(v, nu, NewFromCache(1, peaks));
      var t := new NonEmptyHistoryTree(scheme, network, nu, inner, 1, peaks, block.height, [block]);
      assert t.Leaves() == [leaf] by { LeafDataSnoc(scheme, nu, [], block); assert [] + [block] == [block]; }
      OneLeafIsWhole(t.C(), leaf);
      RebuiltAgrees(t.C(), [leaf]);
      return Ok(t);
    }

    /** A tree from saved peaks: the version comes from the height. */
    static method FromCache(scheme: Scheme<D>, network: Network, size: u32, peaks: map<u32, Entry<D>>,
                            currentHeight: nat, ghost blocks: seq<Block>, cacheFails: bool)
      returns (r: Result<NonEmptyHistoryTree<D>, HistoryTreeError>)
      requires ValidSchedule(network) && currentHeight <= MAX_HEIGHT && peaks.Keys != {}
      requires Rank(Heartwood) <= Rank(Current(network, currentHeight))
      ensures r.Err? <==> cacheFails
      ensures r.Ok? ==> fresh(r.value) && r.value.scheme == scheme && r.value.network == network
      ensures r.Ok? ==> r.value.size == size && r.value.peaks == peaks && r.value.currentHeight == currentHeight
      ensures r.Ok? ==> r.value.networkUpgrade == Current(network, currentHeight) && r.value.blocks == blocks
      ensures r.Ok? ==>
                r.value.inner == InnerHistoryTree(VersionOf(r.value.networkUpgrade), r.value.networkUpgrade,
                                                  NewFromCache(size, peaks))
      ensures
        var nu := Current(network, currentHeight);
        r.Ok? && HoldsPeaks(scheme, nu, size, peaks, blocks) && IsTimely(network, nu, currentHeight, blocks) ==> r.value.Valid()
    {
      var nu := Current(network, currentHeight);
      if cacheFails {
        return Err(IOError);
      }
      var inner := InnerHistoryTree(VersionOf(nu), nu, NewFromCache(size, peaks));
      var t := new NonEmptyHistoryTree(scheme, network, nu, inner, size, peaks, currentHeight, blocks);
      hide HoldsPeaks, IsTimely, IsTree;
      if HoldsPeaks(scheme, nu, size, peaks, blocks) && IsTimely(network, nu, currentHeight, blocks) {
        PeaksMakeTree(scheme, network, nu, size, peaks, currentHeight, blocks);
      }
      return Ok(t);
    }

    /** The inner tree rebuilt from size and peaks: the version comes from the inner tree there is. */
    function RebuiltInner(): InnerHistoryTree<D>
      reads this
      requires peaks.Keys != {}
    {
      InnerHistoryTree(inner.version, networkUpgrade, NewFromCache(size, peaks))
    }

    /** A clone rebuilds its inner tree; a rebuild error there is a panic and not modelled. */
    method Clone() returns (t: NonEmptyHistoryTree<D>)
      requires Structured()
      ensures fresh(t) && t.Structured() && t.scheme == scheme && t.network == network
      ensures t.networkUpgrade == networkUpgrade && t.size == size && t.peaks == peaks
      ensures t.currentHeight == currentHeight && t.blocks == blocks
      ensures Valid() ==> t.Valid()
    {
      SizeFits();
      RebuiltAgrees(C(), Leaves());
      t := new NonEmptyHistoryTree(scheme, network, networkUpgrade, RebuiltInner(), size, peaks, currentHeight, blocks);
    }

    lemma SizeFits()
      requires Structured()
      ensures |Nodes(C(), Leaves())| <= U32_LIMIT
    {
    }

    /** The root hash is the bagged peaks of the whole array over the blocks, and commits to every block in turn. */
    method Hash() returns (h: D)
      requires Structured()
      ensures PeakEntries(C(), RangeOf(Leaves())) != [] && h == Bag(C(), PeakEntries(C(), RangeOf(Leaves()))).data
      ensures h == BlocksRoot(scheme, networkUpgrade, blocks)
    {
      WholeEntries(C(), Leaves());
      RootExact(C(), Leaves());
      BlocksRootExact(scheme, networkUpgrade, blocks);
      h := Root(CombinerOf(scheme, inner.version, inner.upgrade), inner.tree);
    }

    /** The peak search, the trimming of everything else, and the rebuild, which alone can fail. */
    method Prune(cacheFails: bool) returns (r: Result<(), HistoryTreeError>)
      requires Rank(Heartwood) <= Rank(networkUpgrade)
      requires blocks != [] && |blocks| < 0x8000_0000 && size == |Nodes(C(), Leaves())|
      requires PeakPositions(ShapeOf(Leaves())) <= peaks.Keys
      modifies this`peaks, this`inner
      ensures peaks == Retain(old(peaks), PeakPositions(ShapeOf(Leaves())))
      ensures r.Err? <==> cacheFails
      ensures r.Err? ==> inner == old(inner)
      ensures r.Ok? ==> peaks.Keys != {}
      ensures r.Ok? ==> inner == InnerHistoryTree(old(inner).version, networkUpgrade, NewFromCache(size, peaks))
    {
      ghost var s := ShapeOf(Leaves());
      ShapeOfFacts(C(), Leaves());
      assert s != [] && PeakPos(s, |s| - 1) in PeakPositions(s);
      var peakPosSet := PeakSearch.CollectPeaks(size, s);
      peaks := Retain(peaks, peakPosSet);
      assert PeakPos(s, |s| - 1) in peaks.Keys;
      if cacheFails {
        return Err(IOError);
      }
      inner := RebuiltInner();
      return Ok(());
    }

    /** Every entry is stored at the next position, peak or not. */
    method Store(newEntries: seq<Entry<D>>)
      requires size + |newEntries| < U32_LIMIT
      modifies this`peaks, this`size
      ensures size == old(size) + |newEntries|
      ensures peaks == StoreAt(old(peaks), old(size), newEntries)
    {
      ghost var before, start := peaks, size;
      var k := 0;
      assert newEntries[..0] == [];
      assert StoreAt(before, start, newEntries[..0]) == before;
      hide StoreAt;
      while k < |newEntries|
        invariant k <= |newEntries| && size == start + k
        invariant peaks == StoreAt(before, start, newEntries[..k])
      {
        StoreAtStep(before, start, newEntries, k);
        peaks := peaks[size := newEntries[k]];
        size := Add32(size, 1);
        k := k + 1;
      }
      assert newEntries[..k] == newEntries;
    }

    /** Whether the block at this height is the activation block of another upgrade. */
    ghost predicate Restarts(height: nat)
      reads this
      requires 0 in network.activations
    {
      Current(network, height) != networkUpgrade
    }

    /** The part of a push within one upgrade that touches the tree: append, store every new entry, prune. */
    method Take(block: Block, fault: Fault<D>) returns (r: Result<(), HistoryTreeError>)
      requires Structured() && |blocks| + 1 < 0x8000_0000
      modifies this`inner, this`size, this`peaks, this`blocks
      ensures r.Ok? <==> fault.NoFault?
      ensures fault.AppendFails? ==> size == old(size) && peaks == old(peaks) && blocks == old(blocks)
      ensures !fault.AppendFails? ==> Structured() && blocks == old(blocks) + [block]
    {
      hide IsTree, LeafData, ShapeOf, Nodes, StoreAt, Retain, PeakPositions, Append;
      if fault.AppendFails? {
        inner := inner.(tree := fault.debris);
        return Err(InnerError);
      }
      IsTreeFacts(scheme, networkUpgrade, inner, size, peaks, blocks);
      var leaf := scheme.leaf(inner.version, inner.upgrade, block);
      var (tree, newEntries) := Append(CombinerOf(scheme, inner.version, inner.upgrade), inner.tree, leaf);
      PushIsTree(scheme, networkUpgrade, inner, size, peaks, blocks, block, tree, newEntries);
      inner := inner.(tree := tree);
      blocks := blocks + [block];
      Store(newEntries);
      r := Prune(fault.CacheFails?);
    }

    /** The activation block of another upgrade replaces the whole tree, or on an error nothing. */
    method Restart(block: Block, cacheFails: bool) returns (r: Result<(), HistoryTreeError>)
      requires ValidSchedule(network) && block.height <= MAX_HEIGHT
      requires Rank(Heartwood) <= Rank(Current(network, block.height))
      modifies this
      ensures network == old(network)
      ensures r.Err? <==> cacheFails
      ensures r.Err? ==> unchanged(this)
      ensures r.Ok? ==> Valid() && currentHeight == block.height
      ensures r.Ok? ==> View() == Some(Epoch(Current(network, block.height), [block]))
    {
      hide IsTree, IsTimely;
      var t :- FromBlock(scheme, network, block, cacheFails);
      networkUpgrade, inner, size, peaks := t.networkUpgrade, t.inner, t.size, t.peaks;
      currentHeight, blocks := t.currentHeight, t.blocks;
      return Ok(());
    }

    /**
     Adds a block. On success the tree is the tree over one more block, or over the block alone when it
     activates an upgrade. A failed restart changes nothing; a failed append changes nothing but the inner
     tree; a failed rebuild has already taken the block in, and only the height is left behind.
     */
    method Push(block: Block, fault: Fault<D>) returns (r: Result<(), HistoryTreeError>)
      requires Valid() && block.height == currentHeight + 1 <= MAX_HEIGHT
      modifies this
      ensures network == old(network)
      ensures r.Ok? <==> (if old(Restarts(block.height)) then !fault.CacheFails? else fault.NoFault?)
      ensures r.Ok? ==> Valid() && currentHeight == block.height
      ensures r.Ok? ==> View() == PushEpoch(network, old(View()), block)
      ensures r.Err? && old(Restarts(block.height)) ==> unchanged(this)
      ensures r.Err? && !old(Restarts(block.height)) && fault.AppendFails? ==>
                unchanged(`networkUpgrade, `size, `peaks, `currentHeight, `blocks)
      ensures r.Err? && !old(Restarts(block.height)) && fault.CacheFails? ==>
                Structured() && blocks == old(blocks) + [block] && unchanged(`networkUpgrade, `currentHeight)
    {
      hide IsTree, IsTimely, PushEpoch, Current, ValidSchedule;
      IsTreeFacts(scheme, networkUpgrade, inner, size, peaks, blocks);
      TimelyFacts(network, networkUpgrade, currentHeight, blocks);
      PushEpochPastHeartwood(network, Epoch(networkUpgrade, blocks), currentHeight, block);
      if Current(network, block.height) != networkUpgrade {
        r := Restart(block, fault.CacheFails?);
      } else {
        var _ :- Take(block, fault);
        currentHeight := block.height;
        StaysTimely(network, networkUpgrade, old(currentHeight), old(blocks), block);
        return Ok(());
      }
    }

    /** What a push that failed on `block` leaves of the tree that was at `before` and `height`. */
    ghost predicate Stopped(net: Network, before: Option<Epoch>, height: nat, block: Block, fault: Fault<D>)
      reads this
      requires 0 in net.activations
    {
      && network == net && currentHeight == height && before.Some?
      && if Current(net, block.height) != before.value.upgrade then fault.CacheFails? && Valid() && View() == before
         else if fault.AppendFails? then View() == before && HoldsPeaks(scheme, networkUpgrade, size, peaks, blocks)
         else fault.CacheFails? && Structured() && View() == Some(Epoch(before.value.upgrade, before.value.blocks + [block]))
    }

    /**
     Pushes in order, stopping at the first error: `taken` items are in the tree for good, and the one after
     them left behind what a failed push leaves.
     */
    method TryExtend(items: seq<(Block, Fault<D>)>) returns (r: Result<(), HistoryTreeError>, ghost taken: nat)
      requires Valid() && currentHeight + |items| <= MAX_HEIGHT
      requires forall i :: 0 <= i < |items| ==> items[i].0.height == currentHeight + 1 + i
      modifies this
      ensures network == old(network) && 0 in network.activations
      ensures (forall i :: 0 <= i < |items| ==> items[i].1.NoFault?) ==> r.Ok?
      ensures r.Ok? <==> taken == |items|
      ensures r.Ok? ==> Valid() && currentHeight == old(currentHeight) + |items|
      ensures r.Ok? ==> View() == Extend(network, old(View()), Firsts(items))
      ensures r.Err? ==> taken < |items|
      ensures r.Err? ==>
                Stopped(network, Extend(network, old(View()), Firsts(items[..taken])), old(currentHeight) + taken,
                        items[taken].0, items[taken].1)
    {
      hide IsTree, IsTimely, HoldsPeaks, PushEpoch, Current;
      IsTreeFacts(scheme, networkUpgrade, inner, size, peaks, blocks);
      TimelyFacts(network, networkUpgrade, currentHeight, blocks);
      var k := 0;
      taken := 0;
      while k < |items|
        invariant k <= |items| && taken == k && Valid() && network == old(network)
        invariant 0 in network.activations
        invariant currentHeight == old(currentHeight) + k
        invariant View() == Extend(network, old(View()), Firsts(items[..k]))
      {
        assert items[..k + 1][..k] == items[..k];
        TreeHoldsPeaks(scheme, networkUpgrade, inner, size, peaks, blocks);
        r := Push(items[k].0, items[k].1);
        if r.Err? {
          return;
        }
        k := k + 1;
        taken := k;
      }
      assert items[..k] == items;
      r := Ok(());
    }
  }

  function Firsts<T>(items: seq<(Block, T)>): (bs: seq<Block>)
    ensures |bs| == |items|
  {
    if items == [] then [] else Firsts(items[..|items| - 1]) + [items[|items| - 1].0]
  }

  /** The optional tree: none before Heartwood. */
  class HistoryTree<D> {
    const scheme: Scheme<D>
    var tree: NonEmptyHistoryTree?<D>

    ghost predicate Valid()
      reads this, tree
    {
      tree != null ==> tree.Valid() && tree.scheme == scheme
    }

    ghost function View(): Option<Epoch>
      reads this, tree
    {
      if tree == null then None else tree.View()
    }

    constructor (scheme: Scheme<D>, tree: NonEmptyHistoryTree?<D>)
      ensures this.scheme == scheme && this.tree == tree
    {
      this.scheme, this.tree := scheme, tree;
    }

    static method FromBlock(scheme: Scheme<D>, network: Network, block: Block, cacheFails: bool)
      returns (r: Result<HistoryTree<D>, HistoryTreeError>)
      requires ValidSchedule(network) && block.height <= MAX_HEIGHT
      ensures r.Ok? <==> !cacheFails || FirstEpoch(network, block).None?
      ensures r.Ok? ==> fresh(r.value) && r.value.Valid() && r.value.View() == FirstEpoch(network, block)
      ensures r.Ok? && r.value.tree != null ==>
                fresh(r.value.tree) && r.value.tree.network == network && r.value.tree.currentHeight == block.height
      ensures r.Ok? ==> r.value.Ready(network, block.height + 1) || block.height == MAX_HEIGHT
    {
      CurrentReaches(network, Heartwood, block.height);
      var a := ActivationHeight(network, Heartwood);
      if a.None? || block.height < a.value {
        var t := new HistoryTree(scheme, null);
        return Ok(t);
      }
      var inner :- NonEmptyHistoryTree.FromBlock(scheme, network, block, cacheFails);
      var t := new HistoryTree(scheme, inner);
      return Ok(t);
    }

    /** The tree must not exist before Heartwood, and must exist and be at the previous height after it. */
    ghost predicate Ready(network: Network, height: nat)
      reads this, tree
    {
      var a := ActivationHeight(network, Heartwood);
      && ValidSchedule(network) && height <= MAX_HEIGHT
      && (a.None? || height < a.value ==> tree == null)
      && (a.Some? && a.value < height ==> tree != null && height == tree.currentHeight + 1)
    }

    /** The network decides where Heartwood is; past it, the tree's own network decides where it restarts. */
    method Push(network: Network, block: Block, fault: Fault<D>) returns (r: Result<(), HistoryTreeError>)
      requires Valid() && Ready(network, block.height)
      modifies this, tree
      ensures tree != null ==> tree == old(tree) || fresh(tree)
      ensures
        var a := ActivationHeight(network, Heartwood);
        if a.None? || block.height < a.value then r.Ok? && tree == null
        else if block.height == a.value then
          (r.Ok? <==> !fault.CacheFails?) && (if r.Ok? then tree != null && tree.network == network else tree == old(tree))
        else
          && tree == old(tree) && tree.network == old(tree.network)
          && (r.Ok? <==> if old(tree.Restarts(block.height)) then !fault.CacheFails? else fault.NoFault?)
      ensures r.Ok? ==> Valid()
      ensures r.Ok? && tree != null ==>
                tree.currentHeight == block.height && 0 in tree.network.activations
                && View() == PushEpoch(tree.network, old(View()), block)
      ensures r.Ok? && (tree != null ==> tree.network == network) ==> View() == PushEpoch(network, old(View()), block)
      ensures r.Ok? ==> Ready(network, block.height + 1) || block.height == MAX_HEIGHT
    {
      hide IsTree, IsTimely, CurrentActivation;
      CurrentReaches(network, Heartwood, block.height);
      var a := ActivationHeight(network, Heartwood);
      if a.None? || block.height < a.value {
        return Ok(());
      }
      if block.height == a.value {
        var t :- NonEmptyHistoryTree.FromBlock(scheme, network, block, fault.CacheFails?);
        tree := t;
      } else {
        IsTreeFacts(scheme, tree.networkUpgrade, tree.inner, tree.size, tree.peaks, tree.blocks);
        TimelyFacts(tree.network, tree.networkUpgrade, tree.currentHeight, tree.blocks);
        var _ :- tree.Push(block, fault);
      }
      return Ok(());
    }

    /** The tree after a run of consecutive blocks, as one sees it from outside. */
    ghost predicate Follows(network: Network, blocks: seq<Block>)
      reads this, tree
      requires 0 in network.activations && blocks != [] && Consecutive(blocks)
    {
      var h := blocks[|blocks| - 1].height;
      && Valid() && View() == Declared(network, blocks)
      && (tree == null <==> Rank(Current(network, h)) < Rank(Heartwood))
      && (tree != null ==>
            && tree.network == network && tree.currentHeight == h && tree.networkUpgrade == Current(network, h)
            && tree.inner.version == VersionOf(tree.networkUpgrade)
            && tree.blocks == blocks[Since(network, blocks)..])
    }

    /**
     A whole run on the object, across Heartwood and every later upgrade: a tree from the first block and a
     push for each of the others. The tree is absent exactly while the last height is below Heartwood;
     else height, upgrade and version are those of the last block, and the leaves are the blocks since
     that upgrade became current.
     */
    static method PushAll(scheme: Scheme<D>, network: Network, blocks: seq<Block>, faults: seq<Fault<D>>)
      returns (r: Result<HistoryTree<D>, HistoryTreeError>)
      requires ValidSchedule(network) && blocks != [] && Consecutive(blocks) && |faults| == |blocks|
      requires blocks[|blocks| - 1].height <= MAX_HEIGHT
      ensures (forall i :: 0 <= i < |faults| ==> faults[i].NoFault?) ==> r.Ok?
      ensures r.Ok? ==> fresh(r.value) && r.value.Follows(network, blocks)
    {
      hide IsTree, IsTimely, Current, PushEpoch, FirstEpoch, Declared, CurrentActivation, ActivationHeight, Extend;
      assert Extend(network, FirstEpoch(network, blocks[0]), []) == FirstEpoch(network, blocks[0]) by {
        ExtendNone(network, FirstEpoch(network, blocks[0]));
      }
      var t :- FromBlock(scheme, network, blocks[0], faults[0].CacheFails?);
      var k := 1;
      assert blocks[1..1] == [];
      while k < |blocks|
        invariant 1 <= k <= |blocks|
        invariant fresh(t) && t.Valid() && (t.tree != null ==> fresh(t.tree) && t.tree.network == network)
        invariant t.tree != null ==> t.tree.currentHeight == blocks[k - 1].height
        invariant t.View() == Extend(network, FirstEpoch(network, blocks[0]), blocks[1..k])
        invariant k < |blocks| ==> t.Ready(network, blocks[k].height)
      {
        assert blocks[1..k + 1] == blocks[1..k] + [blocks[k]];
        ExtendSnoc(network, FirstEpoch(network, blocks[0]), blocks[1..k], blocks[k]);
        var _ :- t.Push(network, blocks[k], faults[k]);
        k := k + 1;
      }
      assert blocks[1..k] == blocks[1..];
      RunIsDeclared(network, blocks);
      t.FollowsDeclared(network, blocks);
      return Ok(t);
    }

    lemma FollowsDeclared(network: Network, blocks: seq<Block>)
      requires ValidSchedule(network) && blocks != [] && Consecutive(blocks)
      requires Valid() && View() == Declared(network, blocks)
      requires tree != null ==> tree.network == network && tree.currentHeight == blocks[|blocks| - 1].height
      ensures Follows(network, blocks)
    {
    }
  }

  // ----- saving and restoring

  /**
   A tree survives saving: restoring its size, peaks and height picks the version from the height,
   cloning picks it from the tree there is, and both give the same fields, which are again a tree over
   the same blocks.
   */
  lemma CacheRoundTrip<D>(s: Scheme<D>, net: Network, nu: NetworkUpgrade, inner: InnerHistoryTree<D>, size: nat,
                          peaks: map<nat, Entry<D>>, height: nat, blocks: seq<Block>)
    requires IsTree(s, nu, inner, size, peaks, blocks) && IsTimely(net, nu, height, blocks)
    ensures peaks.Keys != {} && Rank(Heartwood) <= Rank(Current(net, height))
    ensures
      var restored := InnerHistoryTree(VersionOf(Current(net, height)), Current(net, height), NewFromCache(size, peaks));
      var cloned := InnerHistoryTree(inner.version, nu, NewFromCache(size, peaks));
      && restored == cloned
      && IsTree(s, Current(net, height), restored, size, peaks, blocks)
  {
    TimelyFacts(net, nu, height, blocks);
    TreeHoldsPeaks(s, nu, inner, size, peaks, blocks);
    PeaksMakeTree(s, net, nu, size, peaks, height, blocks);
  }

  /**
   Any two trees over the same blocks, however they were obtained, have the same size, peaks and root,
   and create the same nodes for any next leaf, after which they still agree.
   */
  lemma SameBlocksSameFuture<D>(s: Scheme<D>, nu: NetworkUpgrade, blocks: seq<Block>, size: nat, size': nat,
                                peaks: map<nat, Entry<D>>, peaks': map<nat, Entry<D>>,
                                inner: InnerHistoryTree<D>, inner': InnerHistoryTree<D>, x: D)
    requires IsTree(s, nu, inner, size, peaks, blocks) && IsTree(s, nu, inner', size', peaks', blocks)
    ensures
      var c := CombinerOf(s, VersionOf(nu), nu);
      && size == size' && peaks == peaks'
      && Usable(inner.tree) && Usable(inner'.tree)
      && Root(c, inner.tree) == Root(c, inner'.tree)
      && Append(c, inner.tree, x).1 == Append(c, inner'.tree, x).1
      && Agree(Append(c, inner.tree, x).0, Append(c, inner'.tree, x).0)
  {
    AgreeForever(CombinerOf(s, VersionOf(nu), nu), inner.tree, inner'.tree, x);
  }
}
