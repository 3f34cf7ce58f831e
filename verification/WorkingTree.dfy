/**
 The runtime tree behind the history tree: it stores only the nodes it was given, and works on links
 to its peaks. The crate that implements it is not part of this model; `NewFromCache`, `Append` and
 `Root` have the meaning ZIP-221 gives them. The theorems compare it with the whole node array.
 */
module WorkingTree {
  import opened Bits
  import opened Mmr

  /** `length` counts every node ever created; `links` names the peaks from left to right. */
  datatype Tree<D> = Tree(length: nat, stored: map<nat, Entry<D>>, links: seq<nat>)

  predicate Usable<D>(t: Tree<D>) {
    && t.links != []
    && (forall i :: 0 <= i < |t.links| ==> t.links[i] in t.stored && t.links[i] < t.length)
  }

  function LinkedEntries<D>(t: Tree<D>): (es: seq<Entry<D>>)
    requires Usable(t)
  {
    seq(|t.links|, i requires 0 <= i < |t.links| => t.stored[t.links[i]])
  }

  /** Bagging: the peaks are combined from left to right. */
  function Bag<D>(c: Combiner<D>, es: seq<Entry<D>>): Entry<D>
    requires es != []
  {
    if |es| == 1 then es[0] else Join(c, Bag(c, es[..|es| - 1]), es[|es| - 1])
  }

  function Root<D>(c: Combiner<D>, t: Tree<D>): D
    requires Usable(t)
  {
    Bag(c, LinkedEntries(t)).data
  }

  /** The keys below `bound`, in ascending order: the order in which a BTreeMap is walked. */
  function KeysBelow<D>(m: map<nat, Entry<D>>, bound: nat): seq<nat> {
    if bound == 0 then []
    else KeysBelow(m, bound - 1) + (if bound - 1 in m then [bound - 1] else [])
  }

  /** The tree that knows `peaks` and nothing else. It cannot be built from no peaks at all. */
  function NewFromCache<D>(length: nat, peaks: map<nat, Entry<D>>): Tree<D>
    requires peaks.Keys != {}
  {
    Tree(length, peaks, KeysBelow(peaks, U32_LIMIT))
  }

  /** A new leaf's nodes are stored at the end; the merged peaks give way to the last of them. */
  function Append<D>(c: Combiner<D>, t: Tree<D>, data: D): (Tree<D>, seq<Entry<D>>)
    requires Usable(t)
  {
    var es := Appended(c, LinkedEntries(t), Entry(data, 1));
    (Tree(t.length + |es|, StoreAt(t.stored, t.length, es),
          t.links[..|t.links| + 1 - |es|] + [t.length + |es| - 1]),
     es)
  }

  /** `es` stored at consecutive positions from `pos`. */
  function StoreAt<D>(m: map<nat, Entry<D>>, pos: nat, es: seq<Entry<D>>): map<nat, Entry<D>> {
    m + map k | k in Span(pos, |es|) :: es[k - pos]
  }

  function Span(pos: nat, len: nat): (ks: set<nat>)
    ensures forall k :: k in ks <==> pos <= k < pos + len
  {
    if len == 0 then {} else Span(pos, len - 1) + {pos + len - 1}
  }

  lemma StoreAtStep<D>(m: map<nat, Entry<D>>, pos: nat, es: seq<Entry<D>>, k: nat)
    requires k < |es|
    ensures StoreAt(m, pos, es[..k + 1]) == StoreAt(m, pos, es[..k])[pos + k := es[k]]
  {
  }

  lemma StoreAtConcat<D>(a: seq<Entry<D>>, b: seq<Entry<D>>)
    ensures StoreAt(StoreAt(map[], 0, a), |a|, b) == StoreAt(map[], 0, a + b)
  {
    var l, r := StoreAt(StoreAt(map[], 0, a), |a|, b), StoreAt(map[], 0, a + b);
    forall k | k in l ensures k in r && l[k] == r[k] {}
    forall k | k in r ensures k in l {}
  }

  // ----- the unpruned tree, and what pruning keeps

  /** Nothing pruned, nothing rebuilt: every leaf appended to the tree that the first one started. */
  function Unpruned<D>(c: Combiner<D>, leaves: seq<D>): Tree<D>
    requires leaves != []
    ensures Usable(Unpruned(c, leaves))
  {
    if |leaves| == 1 then
      Tree(1, map[0 := Entry(leaves[0], 1)], [0])
    else
      var t := Unpruned(c, leaves[..|leaves| - 1]);
      AppendUsable(c, t, leaves[|leaves| - 1]);
      Append(c, t, leaves[|leaves| - 1]).0
  }

  lemma AppendUsable<D>(c: Combiner<D>, t: Tree<D>, x: D)
    requires Usable(t)
    ensures Usable(Append(c, t, x).0)
  {
  }

  function Links(s: Shape): (links: seq<nat>)
    ensures |links| == |s|
    ensures forall i :: 0 <= i < |s| ==> links[i] == PeakPos(s, i)
  {
    seq(|s|, i requires 0 <= i < |s| => PeakPos(s, i))
  }

  /** Every node of an array, linked at the peaks of a shape. */
  function Linked<D>(nodes: seq<Entry<D>>, s: Shape): Tree<D> {
    Tree(|nodes|, StoreAt(map[], 0, nodes), Links(s))
  }

  /** Every node of the reference array, linked at the reference's peaks. */
  function Whole<D>(c: Combiner<D>, leaves: seq<D>): Tree<D> {
    Linked(Nodes(c, leaves), ShapeOf(leaves))
  }

  /** `created` new nodes after `size` old ones consumed all but the first as merges of peaks. */
  predicate LinksStep(s: Shape, t: Shape, size: nat, created: nat) {
    0 < created <= |s| + 1 && Links(t) == Links(s)[..|s| + 1 - created] + [size + created - 1]
  }

  lemma LinkedAppend<D>(c: Combiner<D>, nodes: seq<Entry<D>>, s: Shape, t: Shape, x: D, es: seq<Entry<D>>)
    requires Usable(Linked(nodes, s))
    requires es == Appended(c, LinkedEntries(Linked(nodes, s)), Entry(x, 1))
    requires LinksStep(s, t, |nodes|, |es|)
    ensures Append(c, Linked(nodes, s), x) == (Linked(nodes + es, t), es)
  {
    StoreAtConcat(nodes, es);
  }

  lemma WholeEntries<D>(c: Combiner<D>, leaves: seq<D>)
    requires leaves != []
    ensures Usable(Linked(Nodes(c, leaves), ShapeOf(leaves)))
    ensures LinkedEntries(Linked(Nodes(c, leaves), ShapeOf(leaves))) == PeakEntries(c, RangeOf(leaves))
  {
    var f := RangeOf(leaves);
    ShapeOfFacts(c, leaves);
    forall i | 0 <= i < |Altitudes(f)|
      ensures PeakPos(Altitudes(f), i) < |Nodes(c, leaves)|
      ensures PeakEntries(c, f)[i] == Nodes(c, leaves)[PeakPos(Altitudes(f), i)]
    {
      PeakEntriesAreNodes(c, f, i);
    }
  }

  lemma KeptAltitudes<D>(c: Combiner<D>, leaves: seq<D>, x: D)
    ensures
      var s, t, k := ShapeOf(leaves), ShapeOf(leaves + [x]), TrailingOnes(|leaves|);
      k <= |s| && |t| == |s| - k + 1 && forall i :: 0 <= i < |t| - 1 ==> s[i] == t[i]
  {
    var s, t, k := ShapeOf(leaves), ShapeOf(leaves + [x]), TrailingOnes(|leaves|);
    PushLeaf(c, leaves, x);
    forall i | 0 <= i < |t| - 1 ensures s[i] == t[i] {
      assert t[i] == t[..|t| - 1][i] && s[i] == s[..|s| - k][i];
    }
  }

  /** The peaks before a push keep their places; the new right-most one ends the array. */
  lemma LinksAfterPush<D>(c: Combiner<D>, leaves: seq<D>, x: D)
    ensures
      var s, t, k := ShapeOf(leaves), ShapeOf(leaves + [x]), TrailingOnes(|leaves|);
      k <= |s| && Links(t) == Links(s)[..|s| - k] + [NodeTotal(t) - 1]
  {
    var s, t := ShapeOf(leaves), ShapeOf(leaves + [x]);
    KeptAltitudes(c, leaves, x);
    var kept := |t| - 1;
    forall i | 0 <= i < kept ensures Links(t)[i] == Links(s)[i] {
      SamePrefix(s, t, i + 1);
    }
    assert Links(t)[kept] == NodeTotal(t) - 1;
    assert Links(t) == Links(t)[..kept] + [Links(t)[kept]];
    assert Links(t)[..kept] == Links(s)[..kept];
  }

  /** Appending to the whole tree gives the whole tree over one more leaf. */
  lemma WholeAppend<D>(c: Combiner<D>, leaves: seq<D>, x: D, es: seq<Entry<D>>)
    requires leaves != [] && es == Appended(c, PeakEntries(c, RangeOf(leaves)), Entry(x, 1))
    ensures Nodes(c, leaves + [x]) == Nodes(c, leaves) + es
    ensures Usable(Whole(c, leaves)) && Append(c, Whole(c, leaves), x) == (Whole(c, leaves + [x]), es)
  {
    var nodes, s, t := Nodes(c, leaves), ShapeOf(leaves), ShapeOf(leaves + [x]);
    var w := Linked(nodes, s);
    assert Nodes(c, leaves + [x]) == nodes + es && |es| == 1 + TrailingOnes(|leaves|) by { PushCreates(c, leaves, x); }
    assert Usable(w) && LinkedEntries(w) == PeakEntries(c, RangeOf(leaves)) by { WholeEntries(c, leaves); }
    assert Append(c, w, x) == (Linked(nodes + es, t), es) by {
      LinksOfPush(c, leaves, x, es);
      LinkedAppend(c, nodes, s, t, x, es);
    }
  }

  lemma LinksOfPush<D>(c: Combiner<D>, leaves: seq<D>, x: D, es: seq<Entry<D>>)
    requires |es| == 1 + TrailingOnes(|leaves|)
    requires Nodes(c, leaves + [x]) == Nodes(c, leaves) + es
    ensures LinksStep(ShapeOf(leaves), ShapeOf(leaves + [x]), |Nodes(c, leaves)|, |es|)
  {
    LinksAfterPush(c, leaves, x);
    ShapeOfFacts(c, leaves + [x]);
  }

  /** The unpruned tree is the reference: all nodes, at the reference's positions. */
  lemma {:induction false} UnprunedIsWhole<D>(c: Combiner<D>, leaves: seq<D>)
    requires leaves != []
    ensures Unpruned(c, leaves) == Whole(c, leaves)
  {
    if |leaves| == 1 {
      OneLeafIsWhole(c, leaves[0]);
      assert leaves == [leaves[0]];
    } else {
      var init, x := leaves[..|leaves| - 1], leaves[|leaves| - 1];
      assert leaves == init + [x];
      UnprunedIsWhole(c, init);
      WholeAppend(c, init, x, Appended(c, PeakEntries(c, RangeOf(init)), Entry(x, 1)));
    }
  }

  lemma OneLeafIsWhole<D>(c: Combiner<D>, x: D)
    ensures Whole(c, [x]) == Tree(1, map[0 := Entry(x, 1)], [0])
    ensures Nodes(c, [x]) == [Entry(x, 1)] && PeakMap(c, [x]) == map[0 := Entry(x, 1)]
  {
    assert [x][..0] == [];
    assert RangeOf([x]) == Then(Empty, Leaf(x)) by { assert RangeOf<D>([]) == Empty; }
    assert RangeNodes(c, Empty) == [] && Altitudes<D>(Empty) == [];
    assert Nodes(c, [x]) == [Entry(x, 1)] && ShapeOf([x]) == [0];
    assert NodesBefore([0], 1) == 1;
    assert PeakPositions([0]) == {0};
    assert StoreAt(map[], 0, [Entry(x, 1)]) == map[0 := Entry(x, 1)];
  }

  /** Two trees that no operation can tell apart, whatever else they store. */
  ghost predicate Agree<D>(t: Tree<D>, u: Tree<D>) {
    && Usable(t) && Usable(u)
    && t.length == u.length && t.links == u.links && LinkedEntries(t) == LinkedEntries(u)
  }

  /** Trees that agree have the same root, append the same nodes for any leaf, and agree ever after. */
  lemma AgreeForever<D>(c: Combiner<D>, t: Tree<D>, u: Tree<D>, x: D)
    requires Agree(t, u)
    ensures Root(c, t) == Root(c, u)
    ensures Append(c, t, x).1 == Append(c, u, x).1
    ensures Agree(Append(c, t, x).0, Append(c, u, x).0)
  {
    var t', u' := Append(c, t, x).0, Append(c, u, x).0;
    AppendUsable(c, t, x);
    AppendUsable(c, u, x);
    forall i | 0 <= i < |t'.links| ensures t'.stored[t'.links[i]] == u'.stored[u'.links[i]] {
      if i < |t'.links| - 1 {
        assert t'.links[i] == t.links[i];
        assert LinkedEntries(t)[i] == LinkedEntries(u)[i];
      }
    }
  }

  // ----- the root, from the leaves alone

  /** Where a row of `n > 1` leaves divides: in halves if it is one mountain, and else before its last mountain. */
  function Division(n: nat): (i: nat)
    requires n > 1
    ensures 0 < i < n
  {
    if LowestBit(n) == n then n / 2 else n - LowestBit(n)
  }

  /** A leaf is its own root; any other root combines the root of the left part with that of the right part. */
  function RootOver<D>(c: Combiner<D>, leaves: seq<D>): D
    requires leaves != []
    decreases |leaves|
  {
    if |leaves| == 1 then leaves[0]
    else
      var i := Division(|leaves|);
      c(RootOver(c, leaves[..i]), RootOver(c, leaves[i..]))
  }

  lemma {:induction false} MountainRoot<D>(c: Combiner<D>, t: Mountain<D>)
    requires Perfect(t)
    ensures MerkleRoot(c, t).data == RootOver(c, Leaves(t))
  {
    if t.Node? {
      MountainRoot(c, t.left);
      MountainRoot(c, t.right);
      PerfectCounts(t.left);
      PerfectCounts(t.right);
      DivisionOfPower(Height(t.left));
      RootOfParts(c, Leaves(t.left), Leaves(t.right));
    }
  }

  lemma RootOfParts<D>(c: Combiner<D>, a: seq<D>, b: seq<D>)
    requires a != [] && b != [] && |a| == Division(|a| + |b|)
    ensures RootOver(c, a + b) == c(RootOver(c, a), RootOver(c, b))
  {
    hide Division;
    RootOfDivision(c, a + b, |a|);
    PartsOfConcat(a, b);
  }

  lemma RootOfDivision<D>(c: Combiner<D>, leaves: seq<D>, i: nat)
    requires |leaves| > 1 && i == Division(|leaves|)
    ensures RootOver(c, leaves) == c(RootOver(c, leaves[..i]), RootOver(c, leaves[i..]))
  {
  }

  lemma PartsOfConcat<D>(a: seq<D>, b: seq<D>)
    ensures (a + b)[..|a|] == a && (a + b)[|a|..] == b
  {
  }

  lemma DivisionOfRow(n: nat, k: nat)
    requires n > Pow2(k) && n % Pow2(k + 1) == Pow2(k)
    ensures Division(n) == n - Pow2(k)
  {
    LowestBitExact(n, k);
  }

  lemma DivisionOfPower(k: nat)
    ensures Pow2(k + 1) == 2 * Pow2(k) && Division(2 * Pow2(k)) == Pow2(k)
  {
    ZeroIsClear(k + 2);
    LowestOfSet(0, k + 1);
  }

  lemma {:induction false} BaggedRoot<D>(c: Combiner<D>, f: Range<D>)
    requires WellFormed(f) && f.Then?
    ensures RangeLeaves(f) != [] && PeakEntries(c, f) != []
    ensures Bag(c, PeakEntries(c, f)).data == RootOver(c, RangeLeaves(f))
  {
    var peaks := PeakEntries(c, f);
    assert peaks == PeakEntries(c, f.init) + [MerkleRoot(c, f.last)];
    MountainRoot(c, f.last);
    if f.init.Empty? {
      assert RangeLeaves(f) == Leaves(f.last);
    } else {
      BaggedRoot(c, f.init);
      assert peaks[..|peaks| - 1] == PeakEntries(c, f.init);
      LastMountainDivides(f);
      RootOfParts(c, RangeLeaves(f.init), Leaves(f.last));
    }
  }

  lemma LastMountainDivides<D>(f: Range<D>)
    requires WellFormed(f) && f.Then? && f.init.Then?
    ensures RangeLeaves(f.init) != [] && |RangeLeaves(f.init)| == Division(|RangeLeaves(f)|)
  {
    var s, a := Altitudes(f.init), Height(f.last);
    RangeShape(f.init);
    PerfectCounts(f.last);
    LeavesLowClear(s, |s|, a + 1);
    LowestOfSet(LeafTotal(s), a);
  }

  /** The root of the tree over any leaves, in terms of the leaves and the combination alone. */
  lemma RootExact<D>(c: Combiner<D>, leaves: seq<D>)
    requires leaves != []
    ensures PeakEntries(c, RangeOf(leaves)) != []
    ensures Root(c, Unpruned(c, leaves)) == Bag(c, PeakEntries(c, RangeOf(leaves))).data == RootOver(c, leaves)
  {
    UnprunedIsWhole(c, leaves);
    WholeEntries(c, leaves);
    RangeOfIsRange(leaves);
    BaggedRoot(c, RangeOf(leaves));
  }

  lemma RootDivides<D>(c: Combiner<D>, leaves: seq<D>, i: nat)
    requires |leaves| > 1 && i == Division(|leaves|)
    ensures Root(c, Unpruned(c, leaves)) == c(Root(c, Unpruned(c, leaves[..i])), Root(c, Unpruned(c, leaves[i..])))
  {
    RootExact(c, leaves);
    RootExact(c, leaves[..i]);
    RootExact(c, leaves[i..]);
    hide Root, Unpruned, RootOver, Division, PeakEntries, RangeOf;
    RootOfDivision(c, leaves, i);
  }

  /** Over one leaf, the root is the leaf; over a larger power of two of them, it combines those of the halves. */
  lemma RootOfMountain<D>(c: Combiner<D>, leaves: seq<D>, k: nat)
    requires leaves != []
    ensures |leaves| == 1 ==> Root(c, Unpruned(c, leaves)) == leaves[0]
    ensures |leaves| == 2 * Pow2(k) ==>
              Root(c, Unpruned(c, leaves))
              == c(Root(c, Unpruned(c, leaves[..Pow2(k)])), Root(c, Unpruned(c, leaves[Pow2(k)..])))
  {
    if |leaves| == 1 {
      RootExact(c, leaves);
    }
    hide Root, Unpruned;
    if |leaves| == 2 * Pow2(k) {
      DivisionOfPower(k);
      RootDivides(c, leaves, Pow2(k));
    }
  }

  /** Over any other number, whose lowest set bit is `2^k`, it combines the root of all but the last `2^k` with theirs. */
  lemma RootOfRow<D>(c: Combiner<D>, leaves: seq<D>, k: nat)
    requires |leaves| > Pow2(k) && |leaves| % Pow2(k + 1) == Pow2(k)
    ensures
      var i := |leaves| - Pow2(k);
      Root(c, Unpruned(c, leaves)) == c(Root(c, Unpruned(c, leaves[..i])), Root(c, Unpruned(c, leaves[i..])))
  {
    hide Root, Unpruned;
    DivisionOfRow(|leaves|, k);
    RootDivides(c, leaves, |leaves| - Pow2(k));
  }

  // ----- rebuilding from the peaks alone

  /** The reference array, restricted to its peaks. */
  function PeakMap<D>(c: Combiner<D>, leaves: seq<D>): (m: map<nat, Entry<D>>) {
    map p | p in PeakPositions(ShapeOf(leaves)) && p < |Nodes(c, leaves)| :: Nodes(c, leaves)[p]
  }

  lemma {:induction false} FirstPeaksCount(s: Shape, n: nat)
    requires n <= |s|
    ensures |FirstPeaks(s, n)| == n
  {
    if n > 0 {
      FirstPeaksCount(s, n - 1);
      FirstPeaksInside(s, n - 1);
      assert PeakPos(s, n - 1) >= NodesBefore(s, n - 1);
    }
  }

  /** Exactly `popcount(n)` peaks are kept. */
  lemma PeakCount<D>(c: Combiner<D>, leaves: seq<D>)
    ensures |PeakMap(c, leaves)| == PopCount(|leaves|)
  {
    var s := ShapeOf(leaves);
    ShapeOfFacts(c, leaves);
    FirstPeaksInside(s, |s|);
    FirstPeaksCount(s, |s|);
    assert PeakMap(c, leaves).Keys == PeakPositions(s);
  }

  /** What pruning keeps is enough: the tree rebuilt from the peaks agrees with the whole tree. */
  lemma RebuiltAgrees<D>(c: Combiner<D>, leaves: seq<D>)
    requires leaves != [] && |Nodes(c, leaves)| <= U32_LIMIT
    ensures PeakMap(c, leaves).Keys == PeakPositions(ShapeOf(leaves)) != {}
    ensures Agree(NewFromCache(|Nodes(c, leaves)|, PeakMap(c, leaves)), Whole(c, leaves))
  {
    var m, s, nodes := PeakMap(c, leaves), ShapeOf(leaves), Nodes(c, leaves);
    assert NodeTotal(s) == |nodes| by { ShapeOfFacts(c, leaves); }
    assert m.Keys == PeakPositions(s) by { FirstPeaksInside(s, |s|); }
    assert s != [] && PeakPos(s, |s| - 1) in PeakPositions(s) by { ShapeOfFacts(c, leaves); }
    var t, u := NewFromCache(|nodes|, m), Linked(nodes, s);
    assert t.links == Links(s) by { LinksAreKeys(m, s); }
    assert Usable(u) by { WholeEntries(c, leaves); }
    forall i | 0 <= i < |t.links| ensures t.links[i] in m && m[t.links[i]] == u.stored[u.links[i]] {
      assert Links(s)[..|s|] == Links(s);
      LinksArePositions(s, |s|);
      assert t.links[i] in Links(s)[..|s|];
    }
  }

  predicate Ascending(ps: seq<nat>) {
    |ps| <= 1 || (Ascending(ps[..|ps| - 1]) && ps[|ps| - 2] < ps[|ps| - 1])
  }

  lemma {:induction false} AscendingBelow(ps: seq<nat>, bound: nat)
    requires Ascending(ps) && (ps != [] ==> ps[|ps| - 1] < bound)
    ensures forall k :: k in ps ==> k < bound
  {
    if ps != [] {
      var init, last := ps[..|ps| - 1], ps[|ps| - 1];
      AscendingBelow(init, last);
      assert ps == init + [last];
    }
  }

  /** Walking a map in key order visits an ascending list of its keys in that order. */
  lemma {:induction false} KeysOfAscending<D>(m: map<nat, Entry<D>>, ps: seq<nat>, bound: nat)
    requires Ascending(ps) && (ps != [] ==> ps[|ps| - 1] < bound)
    requires forall k: nat | k < bound :: k in m <==> k in ps
    ensures KeysBelow(m, bound) == ps
    decreases bound
  {
    AscendingBelow(ps, bound);
    if bound > 0 {
      if ps != [] && ps[|ps| - 1] == bound - 1 {
        var init := ps[..|ps| - 1];
        assert ps == init + [bound - 1];
        AscendingBelow(init, bound - 1);
        KeysOfAscending(m, init, bound - 1);
      } else {
        if ps != [] { AscendingBelow(ps, bound - 1); }
        KeysOfAscending(m, ps, bound - 1);
      }
    }
  }

  lemma {:induction false} LinksAscend(s: Shape, n: nat)
    requires n <= |s|
    ensures Ascending(Links(s)[..n])
  {
    if n > 1 {
      LinksAscend(s, n - 1);
      assert Links(s)[..n][..n - 1] == Links(s)[..n - 1];
      PeakPosOrdered(s, n - 2, n - 1);
    }
  }

  /** Walking the peaks in key order visits the mountains from left to right. */
  lemma LinksAreKeys<D>(m: map<nat, Entry<D>>, s: Shape)
    requires m.Keys == PeakPositions(s) && NodeTotal(s) <= U32_LIMIT
    ensures KeysBelow(m, U32_LIMIT) == Links(s)
  {
    assert Links(s)[..|s|] == Links(s);
    LinksAscend(s, |s|);
    LinksArePositions(s, |s|);
    if s != [] { PeakPosInside(s, |s| - 1); }
    KeysOfAscending(m, Links(s), U32_LIMIT);
  }

  lemma {:induction false} LinksArePositions(s: Shape, n: nat)
    requires n <= |s|
    ensures forall k :: k in Links(s)[..n] <==> k in FirstPeaks(s, n)
  {
    if n > 0 {
      LinksArePositions(s, n - 1);
      assert Links(s)[..n] == Links(s)[..n - 1] + [PeakPos(s, n - 1)];
    }
  }

  /** `BTreeMap::retain` by key. */
  function Retain<D>(m: map<nat, Entry<D>>, keys: set<nat>): map<nat, Entry<D>> {
    map k | k in m && k in keys :: m[k]
  }

  /** The old peaks with the new nodes added, restricted to the new peak positions, are the new peaks. */
  lemma RetainedPeaks<D>(c: Combiner<D>, leaves: seq<D>, x: D, es: seq<Entry<D>>)
    requires Nodes(c, leaves + [x]) == Nodes(c, leaves) + es
    ensures
      var grown := StoreAt(PeakMap(c, leaves), |Nodes(c, leaves)|, es);
      && PeakPositions(ShapeOf(leaves + [x])) <= grown.Keys
      && PeakMap(c, leaves + [x]) == Retain(grown, PeakPositions(ShapeOf(leaves + [x])))
  {
    var before, after, t := Nodes(c, leaves), Nodes(c, leaves + [x]), ShapeOf(leaves + [x]);
    var grown := StoreAt(PeakMap(c, leaves), |before|, es);
    forall p | p in PeakPositions(t) ensures p in grown && p < |after| && grown[p] == after[p] {
      PeakIsOldOrLast(c, leaves, x, p);
    }
    assert Retain(grown, PeakPositions(t)).Keys == PeakPositions(t) == PeakMap(c, leaves + [x]).Keys;
  }

  /** A peak after a push was a peak before it, or is the last node of all. */
  lemma PeakIsOldOrLast<D>(c: Combiner<D>, leaves: seq<D>, x: D, p: nat)
    requires p in PeakPositions(ShapeOf(leaves + [x]))
    ensures
      || (p in PeakPositions(ShapeOf(leaves)) && p < |Nodes(c, leaves)|)
      || (|Nodes(c, leaves)| <= p == |Nodes(c, leaves + [x])| - 1)
  {
    var s, t, k := ShapeOf(leaves), ShapeOf(leaves + [x]), TrailingOnes(|leaves|);
    var kept := |t| - 1;
    assert kept == |s| - k && forall i :: 0 <= i < kept ==> s[i] == t[i] by { KeptAltitudes(c, leaves, x); }
    SamePrefix(s, t, kept);
    FirstPeaksInside(s, |s|);
    FirstPeaksGrow(s, kept, |s|);
    ShapeOfFacts(c, leaves);
    ShapeOfFacts(c, leaves + [x]);
    PushCreates(c, leaves, x);
  }

  lemma {:induction false} FirstPeaksGrow(s: Shape, i: nat, j: nat)
    requires i <= j <= |s|
    ensures FirstPeaks(s, i) <= FirstPeaks(s, j)
  {
    if i < j { FirstPeaksGrow(s, i, j - 1); }
  }
}
