/**
 The Merkle mountain range of ZIP-221 ("Tree nodes and hashing"), as the mathematical object that the
 working tree is measured against: a row of perfect binary trees of strictly decreasing height over
 the leaves, and the array of all their nodes in the order in which they come into being. Node data
 and the function that combines two siblings are uninterpreted.
 */
module Mmr {
  import opened Bits

  // ----- mountains

  datatype Mountain<D> = Leaf(data: D) | Node(left: Mountain<D>, right: Mountain<D>)

  function Height<D>(t: Mountain<D>): nat {
    match t
    case Leaf(_) => 0
    case Node(l, _) => 1 + Height(l)
  }

  predicate Perfect<D>(t: Mountain<D>) {
    match t
    case Leaf(_) => true
    case Node(l, r) => Perfect(l) && Perfect(r) && Height(l) == Height(r)
  }

  function Leaves<D>(t: Mountain<D>): (s: seq<D>)
    ensures |s| > 0
  {
    match t
    case Leaf(x) => [x]
    case Node(l, r) => Leaves(l) + Leaves(r)
  }

  function NodeCount<D>(t: Mountain<D>): (n: nat)
    ensures n > 0
  {
    match t
    case Leaf(_) => 1
    case Node(l, r) => NodeCount(l) + NodeCount(r) + 1
  }

  lemma {:induction false} PerfectCounts<D>(t: Mountain<D>)
    requires Perfect(t)
    ensures |Leaves(t)| == Pow2(Height(t)) && NodeCount(t) == 2 * Pow2(Height(t)) - 1
  {
    if t.Node? {
      PerfectCounts(t.left);
      PerfectCounts(t.right);
    }
  }

  lemma {:induction false} PerfectIsUnique<D>(t: Mountain<D>, u: Mountain<D>)
    requires Perfect(t) && Perfect(u) && Height(t) == Height(u) && Leaves(t) == Leaves(u)
    ensures t == u
  {
    if t.Node? {
      PerfectCounts(t.left);
      PerfectCounts(u.left);
      SplitConcat(Leaves(t.left), Leaves(t.right), Leaves(u.left), Leaves(u.right));
      PerfectIsUnique(t.left, u.left);
      PerfectIsUnique(t.right, u.right);
    } else {
      assert Leaves(t)[0] == Leaves(u)[0];
    }
  }

  lemma SplitConcat<D>(a: seq<D>, b: seq<D>, a': seq<D>, b': seq<D>)
    requires a + b == a' + b'
    requires |a| == |a'| || |b| == |b'|
    ensures a == a' && b == b'
  {
    assert |a + b| == |a| + |b| && |a' + b'| == |a'| + |b'|;
    assert a == (a + b)[..|a|] && a' == (a' + b')[..|a'|];
    assert b == (a + b)[|a|..] && b' == (a' + b')[|a'|..];
  }

  // ----- ranges

  /** Mountains from left to right; the right edge, where leaves arrive, is at the head of the term. */
  datatype Range<D> = Empty | Then(init: Range<D>, last: Mountain<D>)

  function RangeLeaves<D>(f: Range<D>): seq<D> {
    match f
    case Empty => []
    case Then(g, t) => RangeLeaves(g) + Leaves(t)
  }

  /** Perfect mountains, each strictly lower than its left neighbour. */
  predicate WellFormed<D>(f: Range<D>) {
    match f
    case Empty => true
    case Then(g, t) => WellFormed(g) && Perfect(t) && (g.Then? ==> Height(g.last) > Height(t))
  }

  ghost predicate IsRange<D>(f: Range<D>, leaves: seq<D>) {
    WellFormed(f) && RangeLeaves(f) == leaves
  }

  /** A mountain arrives at the right edge and merges with every neighbour of its own height. */
  function Grow<D>(f: Range<D>, t: Mountain<D>): Range<D> {
    if f.Then? && Height(f.last) == Height(t) then Grow(f.init, Node(f.last, t)) else Then(f, t)
  }

  function RangeOf<D>(leaves: seq<D>): Range<D> {
    if leaves == [] then Empty else Grow(RangeOf(leaves[..|leaves| - 1]), Leaf(leaves[|leaves| - 1]))
  }

  lemma {:induction false} GrowKeepsRange<D>(f: Range<D>, t: Mountain<D>)
    requires WellFormed(f) && Perfect(t)
    requires f.Then? ==> Height(f.last) >= Height(t)
    ensures IsRange(Grow(f, t), RangeLeaves(f) + Leaves(t))
  {
    if f.Then? && Height(f.last) == Height(t) {
      GrowKeepsRange(f.init, Node(f.last, t));
      assert RangeLeaves(f) + Leaves(t) == RangeLeaves(f.init) + Leaves(Node(f.last, t));
    }
  }

  /** Leaves pushed one by one build the mountain range over them. */
  lemma {:induction false} RangeOfIsRange<D>(leaves: seq<D>)
    ensures IsRange(RangeOf(leaves), leaves)
  {
    if leaves != [] {
      var init, x := leaves[..|leaves| - 1], leaves[|leaves| - 1];
      RangeOfIsRange(init);
      GrowKeepsRange(RangeOf(init), Leaf(x));
      assert leaves == init + [x];
    }
  }

  lemma RangeOfSnoc<D>(leaves: seq<D>, x: D)
    ensures RangeOf(leaves + [x]) == Grow(RangeOf(leaves), Leaf(x))
  {
    assert (leaves + [x])[..|leaves|] == leaves;
  }

  // ----- the shape of a range: its altitudes, from left to right

  type Shape = seq<nat>

  function Altitudes<D>(f: Range<D>): Shape {
    match f
    case Empty => []
    case Then(g, t) => Altitudes(g) + [Height(t)]
  }

  /** The first `n` altitudes strictly decrease. */
  predicate DecreasingTo(s: Shape, n: nat)
    requires n <= |s|
  {
    n <= 1 || (DecreasingTo(s, n - 1) && s[n - 2] > s[n - 1])
  }

  predicate Decreasing(s: Shape) {
    DecreasingTo(s, |s|)
  }

  /** Leaves and nodes of the first `n` mountains. */
  function LeavesBefore(s: Shape, n: nat): nat
    requires n <= |s|
  {
    if n == 0 then 0 else LeavesBefore(s, n - 1) + Pow2(s[n - 1])
  }

  function NodesBefore(s: Shape, n: nat): nat
    requires n <= |s|
  {
    if n == 0 then 0 else NodesBefore(s, n - 1) + 2 * Pow2(s[n - 1]) - 1
  }

  function LeafTotal(s: Shape): nat {
    LeavesBefore(s, |s|)
  }

  function NodeTotal(s: Shape): nat {
    NodesBefore(s, |s|)
  }

  /** Where the root of the `i`-th mountain stands in the node array: it is the mountain's last node. */
  function PeakPos(s: Shape, i: nat): nat
    requires i < |s|
  {
    NodesBefore(s, i + 1) - 1
  }

  /** The positions of the first `n` peaks. */
  function FirstPeaks(s: Shape, n: nat): set<nat>
    requires n <= |s|
  {
    if n == 0 then {} else FirstPeaks(s, n - 1) + {PeakPos(s, n - 1)}
  }

  function PeakPositions(s: Shape): set<nat> {
    FirstPeaks(s, |s|)
  }

  lemma {:induction false} SamePrefix(s: Shape, t: Shape, n: nat)
    requires n <= |s| && n <= |t| && forall i :: 0 <= i < n ==> s[i] == t[i]
    ensures LeavesBefore(s, n) == LeavesBefore(t, n)
    ensures NodesBefore(s, n) == NodesBefore(t, n)
    ensures DecreasingTo(s, n) == DecreasingTo(t, n)
    ensures FirstPeaks(s, n) == FirstPeaks(t, n)
  {
    if n > 0 { SamePrefix(s, t, n - 1); }
  }

  /** A range's leaf count and altitudes agree, and the altitudes strictly decrease. */
  lemma {:induction false} RangeShape<D>(f: Range<D>)
    requires WellFormed(f)
    ensures Decreasing(Altitudes(f))
    ensures LeafTotal(Altitudes(f)) == |RangeLeaves(f)|
    ensures f.Then? ==> Altitudes(f) != [] && Altitudes(f)[|Altitudes(f)| - 1] == Height(f.last)
  {
    if f.Then? {
      RangeShape(f.init);
      PerfectCounts(f.last);
      SamePrefix(Altitudes(f.init), Altitudes(f), |Altitudes(f.init)|);
    }
  }

  lemma {:induction false} DecreasingAt(s: Shape, n: nat, i: nat, j: nat)
    requires n <= |s| && DecreasingTo(s, n) && i < j < n
    ensures s[i] > s[j]
  {
    if j < n - 1 {
      DecreasingAt(s, n - 1, i, j);
    } else if i < j - 1 {
      DecreasingAt(s, n - 1, i, j - 1);
    }
  }

  /** The closed form of the size: twice the leaves, less one for every mountain. */
  lemma {:induction false} NodesClosedForm(s: Shape, n: nat)
    requires n <= |s|
    ensures NodesBefore(s, n) == 2 * LeavesBefore(s, n) - n
  {
    if n > 0 { NodesClosedForm(s, n - 1); }
  }

  lemma {:induction false} LeavesLowClear(s: Shape, n: nat, k: nat)
    requires n <= |s| && DecreasingTo(s, n) && (n > 0 ==> s[n - 1] >= k)
    ensures LowClear(LeavesBefore(s, n), k)
    decreases n
  {
    if n == 0 {
      ZeroIsClear(k);
    } else {
      var a := s[n - 1];
      LeavesLowClear(s, n - 1, a + 1);
      SetLowBit(LeavesBefore(s, n - 1), a);
      LowClearWeaken(LeavesBefore(s, n), a, k);
    }
  }

  /** One mountain for each set bit of the leaf count: `popcount(n)` of them, at exactly those altitudes. */
  lemma {:induction false} ShapeIsBinary(s: Shape, n: nat)
    requires n <= |s| && DecreasingTo(s, n)
    ensures PopCount(LeavesBefore(s, n)) == n
    ensures forall b: nat :: BitSet(LeavesBefore(s, n), b) <==> exists i :: 0 <= i < n && s[i] == b
  {
    if n == 0 {
      forall b: nat ensures !BitSet(0, b) { ZeroIsClear(b); }
    } else {
      var m, a, leaves := LeavesBefore(s, n - 1), s[n - 1], LeavesBefore(s, n);
      ShapeIsBinary(s, n - 1);
      LeavesLowClear(s, n - 1, a + 1);
      SetLowBit(m, a);
      forall b: nat ensures BitSet(leaves, b) <==> exists i :: 0 <= i < n && s[i] == b {
        SetLowBitSet(m, a, b);
        if i :| 0 <= i < n && s[i] == b { assert i < n - 1 || b == a; }
      }
    }
  }

  /** Equal leaf counts, equal shapes. */
  lemma {:induction false} ShapeIsUnique(s: Shape, t: Shape, n: nat, k: nat)
    requires n <= |s| && k <= |t| && DecreasingTo(s, n) && DecreasingTo(t, k)
    requires LeavesBefore(s, n) == LeavesBefore(t, k)
    ensures s[..n] == t[..k]
  {
    ShapeIsBinary(s, n);
    ShapeIsBinary(t, k);
    if n > 0 {
      var a, b := s[n - 1], t[k - 1];
      LeavesLowClear(s, n - 1, a + 1);
      LeavesLowClear(t, k - 1, b + 1);
      SetLowBit(LeavesBefore(s, n - 1), a);
      SetLowBit(LeavesBefore(t, k - 1), b);
      if a < b { LowClearWeaken(LeavesBefore(t, k), b, a + 1); }
      if b < a { LowClearWeaken(LeavesBefore(s, n), a, b + 1); }
      ShapeIsUnique(s, t, n - 1, k - 1);
      assert s[..n] == s[..n - 1] + [a] && t[..k] == t[..k - 1] + [b];
    }
  }

  /** There is exactly one mountain range over any sequence of leaves. */
  lemma {:induction false} RangeIsUnique<D>(f: Range<D>, g: Range<D>)
    requires WellFormed(f) && IsRange(g, RangeLeaves(f))
    ensures f == g
  {
    RangeShape(f);
    RangeShape(g);
    ShapeIsUnique(Altitudes(f), Altitudes(g), |Altitudes(f)|, |Altitudes(g)|);
    assert Altitudes(f) == Altitudes(g);
    if f.Then? {
      PerfectCounts(f.last);
      PerfectCounts(g.last);
      SplitConcat(RangeLeaves(f.init), Leaves(f.last), RangeLeaves(g.init), Leaves(g.last));
      PerfectIsUnique(f.last, g.last);
      RangeIsUnique(f.init, g.init);
    }
  }

  lemma {:induction false} NodesBeforeGrows(s: Shape, i: nat, j: nat)
    requires i < j <= |s|
    ensures NodesBefore(s, i) < NodesBefore(s, j)
  {
    if i < j - 1 { NodesBeforeGrows(s, i, j - 1); }
  }

  /** From left to right, peak positions strictly increase, and all lie in the array. */
  lemma PeakPosOrdered(s: Shape, i: nat, j: nat)
    requires i < j < |s|
    ensures PeakPos(s, i) < PeakPos(s, j) < NodeTotal(s)
  {
    NodesBeforeGrows(s, i + 1, j + 1);
    PeakPosInside(s, j);
  }

  lemma PeakPosInside(s: Shape, i: nat)
    requires i < |s|
    ensures PeakPos(s, i) < NodeTotal(s)
  {
    if i + 1 < |s| { NodesBeforeGrows(s, i + 1, |s|); }
  }

  // ----- nodes

  /** Node data together with the number of leaves under the node. */
  datatype Entry<D> = Entry(data: D, count: nat)

  type Combiner<!D> = (D, D) -> D

  function Join<D>(c: Combiner<D>, l: Entry<D>, r: Entry<D>): Entry<D> {
    Entry(c(l.data, r.data), l.count + r.count)
  }

  function MerkleRoot<D>(c: Combiner<D>, t: Mountain<D>): Entry<D> {
    match t
    case Leaf(x) => Entry(x, 1)
    case Node(l, r) => Join(c, MerkleRoot(c, l), MerkleRoot(c, r))
  }

  /** The nodes of a mountain, children before parents. */
  function PostOrder<D>(c: Combiner<D>, t: Mountain<D>): (nodes: seq<Entry<D>>)
    ensures |nodes| == NodeCount(t) > 0
    ensures nodes[|nodes| - 1] == MerkleRoot(c, t)
  {
    match t
    case Leaf(x) => [Entry(x, 1)]
    case Node(l, r) => PostOrder(c, l) + PostOrder(c, r) + [MerkleRoot(c, t)]
  }

  /** The node array of a whole range, nothing pruned. */
  function RangeNodes<D>(c: Combiner<D>, f: Range<D>): seq<Entry<D>> {
    match f
    case Empty => []
    case Then(g, t) => RangeNodes(c, g) + PostOrder(c, t)
  }

  /** The unpruned node array over all leaves. */
  function Nodes<D>(c: Combiner<D>, leaves: seq<D>): seq<Entry<D>> {
    RangeNodes(c, RangeOf(leaves))
  }

  lemma {:induction false} RangeNodesLength<D>(c: Combiner<D>, f: Range<D>)
    requires WellFormed(f)
    ensures |RangeNodes(c, f)| == NodeTotal(Altitudes(f))
  {
    if f.Then? {
      RangeNodesLength(c, f.init);
      PerfectCounts(f.last);
      SamePrefix(Altitudes(f.init), Altitudes(f), |Altitudes(f.init)|);
    }
  }

  /** The entries of the mountains' roots, from left to right. */
  function PeakEntries<D>(c: Combiner<D>, f: Range<D>): (es: seq<Entry<D>>)
    ensures |es| == |Altitudes(f)|
  {
    match f
    case Empty => []
    case Then(g, t) => PeakEntries(c, g) + [MerkleRoot(c, t)]
  }

  /** The nodes at the peak positions are the Merkle roots of the mountains. */
  lemma {:induction false} PeakEntriesAreNodes<D>(c: Combiner<D>, f: Range<D>, i: nat)
    requires WellFormed(f) && i < |Altitudes(f)|
    ensures PeakPos(Altitudes(f), i) < |RangeNodes(c, f)|
    ensures PeakEntries(c, f)[i] == RangeNodes(c, f)[PeakPos(Altitudes(f), i)]
  {
    var s, init := Altitudes(f), Altitudes(f.init);
    var before := RangeNodes(c, f.init);
    assert |before| == NodeTotal(init) by { RangeNodesLength(c, f.init); }
    if i < |init| {
      assert PeakPos(s, i) == PeakPos(init, i) by { SamePrefix(init, s, i + 1); }
      PeakEntriesAreNodes(c, f.init, i);
    } else {
      assert PeakPos(s, i) == |before| + NodeCount(f.last) - 1 by {
        SamePrefix(init, s, |init|);
        PerfectCounts(f.last);
      }
    }
  }

  lemma {:induction false} MerkleCount<D>(c: Combiner<D>, t: Mountain<D>)
    ensures MerkleRoot(c, t).count == |Leaves(t)|
  {
    if t.Node? {
      MerkleCount(c, t.left);
      MerkleCount(c, t.right);
    }
  }

  /** Leaf counts tell the heights of perfect mountains apart. */
  lemma SameCountSameHeight<D>(c: Combiner<D>, t: Mountain<D>, u: Mountain<D>)
    requires Perfect(t) && Perfect(u)
    ensures MerkleRoot(c, t).count == MerkleRoot(c, u).count <==> Height(t) == Height(u)
  {
    MerkleCount(c, t);
    MerkleCount(c, u);
    PerfectCounts(t);
    PerfectCounts(u);
    if Height(t) < Height(u) {
      Pow2Monotone(Height(t) + 1, Height(u));
    } else if Height(u) < Height(t) {
      Pow2Monotone(Height(u) + 1, Height(t));
    }
  }

  // ----- appending on entries alone

  /** The nodes that come into being when `e` arrives at the right edge of `peaks`: `e`, then its merges. */
  function Appended<D>(c: Combiner<D>, peaks: seq<Entry<D>>, e: Entry<D>): (es: seq<Entry<D>>)
    ensures 1 <= |es| <= |peaks| + 1 && es[0] == e
  {
    if peaks != [] && peaks[|peaks| - 1].count == e.count then
      [e] + Appended(c, peaks[..|peaks| - 1], Join(c, peaks[|peaks| - 1], e))
    else
      [e]
  }

  /** `after` is `before` with its last `k` elements replaced by one. */
  ghost predicate Replaced<T>(before: seq<T>, k: nat, after: seq<T>) {
    && k <= |before|
    && |after| == |before| - k + 1
    && after[..|after| - 1] == before[..|before| - k]
  }

  lemma ReplacedOneMore<T>(before: seq<T>, x: T, k: nat, after: seq<T>)
    requires Replaced(before, k, after)
    ensures Replaced(before + [x], k + 1, after)
  {
    assert (before + [x])[..|before| - k] == before[..|before| - k];
  }

  lemma ConcatStep<T>(a: seq<T>, b: seq<T>, d: seq<T>, rest: seq<T>)
    requires |rest| > 0
    ensures a + (b + d + [rest[0]]) + rest[1..] == (a + b) + d + rest
  {
  }

  /**
   Working on peak entries alone builds the reference: the nodes created are the very nodes that the
   array of the grown range has beyond the old array.
   */
  lemma {:induction false} AppendedExtendsNodes<D>(c: Combiner<D>, f: Range<D>, t: Mountain<D>)
    requires WellFormed(f) && Perfect(t)
    ensures RangeNodes(c, Grow(f, t))
         == RangeNodes(c, f) + PostOrder(c, t) + Appended(c, PeakEntries(c, f), MerkleRoot(c, t))[1..]
  {
    var roots, e := PeakEntries(c, f), MerkleRoot(c, t);
    if f.Then? {
      SameCountSameHeight(c, f.last, t);
      assert roots[..|roots| - 1] == PeakEntries(c, f.init);
    }
    if f.Then? && Height(f.last) == Height(t) {
      var up := Node(f.last, t);
      AppendedExtendsNodes(c, f.init, up);
      var rest := Appended(c, PeakEntries(c, f.init), MerkleRoot(c, up));
      ConcatStep(RangeNodes(c, f.init), PostOrder(c, f.last), PostOrder(c, t), rest);
      assert Appended(c, roots, e) == [e] + rest;
      assert Appended(c, roots, e)[1..] == rest;
    } else {
      assert Appended(c, roots, e) == [e];
    }
  }

  /** The nodes `es` were created: all but the first consumed a peak, and the last one is now a peak. */
  ghost predicate Settled<T>(before: seq<T>, es: seq<T>, after: seq<T>) {
    es != [] && Replaced(before, |es| - 1, after) && after[|after| - 1] == es[|es| - 1]
  }

  lemma SettledOneMore<T>(before: seq<T>, x: T, e: T, rest: seq<T>, after: seq<T>)
    requires Settled(before, rest, after)
    ensures Settled(before + [x], [e] + rest, after)
  {
    ReplacedOneMore(before, x, |rest| - 1, after);
  }

  /** The merges consume the right-most peaks, and the last node created is the new right-most peak. */
  lemma {:induction false} AppendedReplacesPeaks<D>(c: Combiner<D>, f: Range<D>, t: Mountain<D>)
    requires WellFormed(f) && Perfect(t)
    ensures Settled(PeakEntries(c, f), Appended(c, PeakEntries(c, f), MerkleRoot(c, t)), PeakEntries(c, Grow(f, t)))
  {
    var roots, e := PeakEntries(c, f), MerkleRoot(c, t);
    if f.Then? {
      SameCountSameHeight(c, f.last, t);
      assert roots[..|roots| - 1] == PeakEntries(c, f.init);
    }
    if f.Then? && Height(f.last) == Height(t) {
      var up := Node(f.last, t);
      AppendedReplacesPeaks(c, f.init, up);
      var rest := Appended(c, PeakEntries(c, f.init), MerkleRoot(c, up));
      assert Appended(c, roots, e) == [e] + rest;
      SettledOneMore(PeakEntries(c, f.init), MerkleRoot(c, f.last), e, rest, PeakEntries(c, Grow(f, t)));
    } else {
      assert Appended(c, roots, e) == [e];
      assert Settled(roots, [e], roots + [e]);
    }
  }

  lemma {:induction false} GrowReplacesAltitudes<D>(c: Combiner<D>, f: Range<D>, t: Mountain<D>)
    requires WellFormed(f) && Perfect(t)
    ensures Replaced(Altitudes(f), |Appended(c, PeakEntries(c, f), MerkleRoot(c, t))| - 1, Altitudes(Grow(f, t)))
  {
    var roots, e := PeakEntries(c, f), MerkleRoot(c, t);
    if f.Then? {
      SameCountSameHeight(c, f.last, t);
      assert roots[..|roots| - 1] == PeakEntries(c, f.init);
    }
    if f.Then? && Height(f.last) == Height(t) {
      var up := Node(f.last, t);
      GrowReplacesAltitudes(c, f.init, up);
      var rest := Appended(c, PeakEntries(c, f.init), MerkleRoot(c, up));
      ReplacedOneMore(Altitudes(f.init), Height(f.last), |rest| - 1, Altitudes(Grow(f, t)));
    }
  }

  // ----- the shape over `n` leaves, and what one more leaf does to it

  function ShapeOf<D>(leaves: seq<D>): Shape {
    Altitudes(RangeOf(leaves))
  }

  /** The facts about the range over `leaves` that the working tree relies on, in one place. */
  lemma ShapeOfFacts<D>(c: Combiner<D>, leaves: seq<D>)
    ensures WellFormed(RangeOf(leaves)) && Decreasing(ShapeOf(leaves))
    ensures LeafTotal(ShapeOf(leaves)) == |leaves|
    ensures |Nodes(c, leaves)| == NodeTotal(ShapeOf(leaves)) == 2 * |leaves| - PopCount(|leaves|)
    ensures |ShapeOf(leaves)| == PopCount(|leaves|)
  {
    RangeOfIsRange(leaves);
    RangeShape(RangeOf(leaves));
    RangeNodesLength(c, RangeOf(leaves));
    NodesClosedForm(ShapeOf(leaves), |ShapeOf(leaves)|);
    ShapeIsBinary(ShapeOf(leaves), |ShapeOf(leaves)|);
  }

  /**
   Pushing a leaf onto an `n`-leaf range creates `1 + trailing_ones(n)` nodes at the end of the array,
   and replaces the last `trailing_ones(n)` peaks by one.
   */
  lemma PushLeaf<D>(c: Combiner<D>, leaves: seq<D>, x: D)
    ensures
      var peaks, after := PeakEntries(c, RangeOf(leaves)), PeakEntries(c, RangeOf(leaves + [x]));
      var es := Appended(c, peaks, Entry(x, 1));
      var k := TrailingOnes(|leaves|);
      && Nodes(c, leaves + [x]) == Nodes(c, leaves) + es
      && |es| == 1 + k
      && Settled(peaks, es, after)
      && Replaced(ShapeOf(leaves), k, ShapeOf(leaves + [x]))
  {
    var f := RangeOf(leaves);
    RangeOfIsRange(leaves);
    RangeOfSnoc(leaves, x);
    PushCreates(c, leaves, x);
    AppendedReplacesPeaks(c, f, Leaf(x));
    GrowReplacesAltitudes(c, f, Leaf(x));
  }

  lemma HeadTail<T>(a: seq<T>, es: seq<T>)
    requires |es| > 0
    ensures a + [es[0]] + es[1..] == a + es
  {
  }

  lemma PushCreates<D>(c: Combiner<D>, leaves: seq<D>, x: D)
    ensures
      var es := Appended(c, PeakEntries(c, RangeOf(leaves)), Entry(x, 1));
      Nodes(c, leaves + [x]) == Nodes(c, leaves) + es && |es| == 1 + TrailingOnes(|leaves|)
  {
    var f := RangeOf(leaves);
    var es := Appended(c, PeakEntries(c, f), Entry(x, 1));
    var n, more := |leaves|, leaves + [x];
    assert Nodes(c, more) == Nodes(c, leaves) + es by {
      RangeOfIsRange(leaves);
      RangeOfSnoc(leaves, x);
      AppendedExtendsNodes(c, f, Leaf(x));
      assert PostOrder(c, Leaf(x)) == [es[0]];
      HeadTail(Nodes(c, leaves), es);
    }
    assert |Nodes(c, leaves)| == 2 * n - PopCount(n) by { ShapeOfFacts(c, leaves); }
    assert |Nodes(c, more)| == 2 * (n + 1) - PopCount(n + 1) by { ShapeOfFacts(c, more); }
    PopCountOfNext(n);
  }

  // ----- peaks are the nodes nobody is the parent of

  /** The altitude of each node of a mountain, in array order. */
  function PostAlts<D>(t: Mountain<D>): (alts: seq<nat>)
    ensures |alts| == NodeCount(t)
    ensures alts[|alts| - 1] == Height(t)
  {
    match t
    case Leaf(_) => [0]
    case Node(l, r) => PostAlts(l) + PostAlts(r) + [Height(t)]
  }

  function RangeAlts<D>(f: Range<D>): seq<nat> {
    match f
    case Empty => []
    case Then(g, t) => RangeAlts(g) + PostAlts(t)
  }

  /** The node at `q` has its right child just before it, and its left child one subtree further back. */
  predicate IsParent(alts: seq<nat>, q: nat, p: int) {
    q < |alts| && alts[q] > 0 && (p == q - 1 || p == q - Pow2(alts[q]))
  }

  ghost predicate HasParent(alts: seq<nat>, p: int) {
    exists q: nat :: IsParent(alts, q, p)
  }

  /** In a perfect mountain every node but the root has a parent, and all children lie inside it. */
  lemma {:induction false} OnlyRootIsParentless<D>(t: Mountain<D>)
    requires Perfect(t)
    ensures forall q: nat, p: int :: IsParent(PostAlts(t), q, p) ==> 0 <= p < NodeCount(t) - 1
    ensures forall p :: 0 <= p < NodeCount(t) - 1 ==> HasParent(PostAlts(t), p)
  {
    if t.Node? {
      var l, r, alts := PostAlts(t.left), PostAlts(t.right), PostAlts(t);
      OnlyRootIsParentless(t.left);
      OnlyRootIsParentless(t.right);
      PerfectCounts(t.right);
      assert alts == l + r + [Height(t)];
      ParentsAppend(l, r);
      ParentsAppend(l + r, [Height(t)]);
      assert IsParent(alts, |l| + |r|, |l| + |r| - 1) && IsParent(alts, |l| + |r|, |l| - 1);
      forall q: nat, p: int | IsParent(alts, q, p) ensures 0 <= p < NodeCount(t) - 1 {
        if q < |l| {
          assert IsParent(l, q, p);
        } else if q < |l| + |r| {
          assert IsParent(r, q - |l|, p - |l|);
        }
      }
      forall p | 0 <= p < NodeCount(t) - 1 ensures HasParent(alts, p) {
        if p < |l| - 1 {
          assert HasParent(l, p);
        } else if |l| <= p < |l| + |r| - 1 {
          assert HasParent(r, p - |l|);
        }
      }
    }
  }

  /** Parenthood inside a block of the array does not depend on what surrounds the block. */
  lemma ParentsAppend(a: seq<nat>, b: seq<nat>)
    ensures forall p :: HasParent(a, p) ==> HasParent(a + b, p)
    ensures forall p :: HasParent(b, p) ==> HasParent(a + b, p + |a|)
  {
    forall p | HasParent(a, p) ensures HasParent(a + b, p) {
      var q: nat :| IsParent(a, q, p);
      assert IsParent(a + b, q, p);
    }
    forall p | HasParent(b, p) ensures HasParent(a + b, p + |a|) {
      var q: nat :| IsParent(b, q, p);
      assert IsParent(a + b, q + |a|, p + |a|);
    }
  }

  /** The peak positions are exactly the nodes of the whole array that have no parent in it. */
  lemma {:induction false} PeaksAreParentless<D>(f: Range<D>, p: nat)
    requires WellFormed(f) && p < |RangeAlts(f)|
    ensures p in PeakPositions(Altitudes(f)) <==> !HasParent(RangeAlts(f), p)
  {
    var s := Altitudes(f);
    var before, block := RangeAlts(f.init), PostAlts(f.last);
    assert s == Altitudes(f.init) + [Height(f.last)];
    RangeAltsLength(f);
    RangeAltsLength(f.init);
    ChildrenInside(f.init);
    OnlyRootIsParentless(f.last);
    if p < |before| {
      PeaksAreParentless(f.init, p);
      ParentInFirstBlock(before, block, p);
      SamePeaksBefore(Altitudes(f.init), Height(f.last), p);
    } else {
      ParentInLastBlock(before, block, p);
      LastPeakOnly(Altitudes(f.init), Height(f.last), p);
    }
  }

  lemma ParentInFirstBlock(a: seq<nat>, b: seq<nat>, p: nat)
    requires p < |a|
    requires forall q: nat, p: int :: IsParent(b, q, p) ==> 0 <= p
    ensures HasParent(a + b, p) <==> HasParent(a, p)
  {
    ParentsAppend(a, b);
    forall q: nat | q >= |a| ensures !IsParent(a + b, q, p) {
      assert IsParent(a + b, q, p) == IsParent(b, q - |a|, p - |a|);
    }
    if HasParent(a + b, p) {
      var q: nat :| IsParent(a + b, q, p);
      assert IsParent(a, q, p);
    }
  }

  lemma ParentInLastBlock(a: seq<nat>, b: seq<nat>, p: nat)
    requires |a| <= p
    requires forall q: nat, p: int :: IsParent(a, q, p) ==> p < |a|
    ensures HasParent(a + b, p) <==> HasParent(b, p - |a|)
  {
    ParentsAppend(a, b);
    if HasParent(b, p - |a|) {
      assert HasParent(a + b, p - |a| + |a|);
    }
    forall q: nat | q < |a| ensures !IsParent(a + b, q, p) {
      assert IsParent(a + b, q, p) == IsParent(a, q, p);
    }
    if HasParent(a + b, p) {
      var q: nat :| IsParent(a + b, q, p);
      assert IsParent(b, q - |a|, p - |a|);
    }
  }

  lemma {:induction false} RangeAltsLength<D>(f: Range<D>)
    requires WellFormed(f)
    ensures |RangeAlts(f)| == NodeTotal(Altitudes(f))
  {
    if f.Then? {
      RangeAltsLength(f.init);
      PerfectCounts(f.last);
      SamePrefix(Altitudes(f.init), Altitudes(f), |Altitudes(f.init)|);
    }
  }

  lemma {:induction false} ChildrenInside<D>(f: Range<D>)
    requires WellFormed(f)
    ensures forall q: nat, p: int :: IsParent(RangeAlts(f), q, p) ==> 0 <= p < |RangeAlts(f)|
  {
    if f.Then? {
      var before, block := RangeAlts(f.init), PostAlts(f.last);
      ChildrenInside(f.init);
      OnlyRootIsParentless(f.last);
      forall q: nat, p: int | IsParent(before + block, q, p) ensures 0 <= p < |before + block| {
        if q < |before| {
          assert IsParent(before, q, p);
        } else {
          assert IsParent(block, q - |before|, p - |before|);
        }
      }
    }
  }

  /** One more mountain leaves the peaks to its left where they are and adds the last node of all. */
  lemma PeaksSnoc(s: Shape, a: nat)
    ensures NodeTotal(s + [a]) == NodeTotal(s) + 2 * Pow2(a) - 1
    ensures PeakPositions(s + [a]) == PeakPositions(s) + {NodeTotal(s + [a]) - 1}
  {
    var t := s + [a];
    assert t[|s|] == a;
    SamePrefix(s, t, |s|);
    assert NodeTotal(t) == NodesBefore(t, |s|) + 2 * Pow2(a) - 1;
    assert PeakPositions(t) == FirstPeaks(t, |s|) + {PeakPos(t, |s|)};
  }

  lemma {:induction false} FirstPeaksInside(s: Shape, n: nat)
    requires n <= |s|
    ensures forall p :: p in FirstPeaks(s, n) ==> p < NodesBefore(s, n)
  {
    if n > 0 { FirstPeaksInside(s, n - 1); }
  }

  lemma SamePeaksBefore(s: Shape, a: nat, p: nat)
    requires p < NodeTotal(s)
    ensures p in PeakPositions(s + [a]) <==> p in PeakPositions(s)
  {
    PeaksSnoc(s, a);
  }

  lemma LastPeakOnly(s: Shape, a: nat, p: nat)
    requires NodeTotal(s) <= p
    ensures p in PeakPositions(s + [a]) <==> p == NodeTotal(s + [a]) - 1
  {
    PeaksSnoc(s, a);
    FirstPeaksInside(s, |s|);
  }
}
