/** The peak search inside `prune`: from the tree size alone, in unsigned 32-bit arithmetic. */
module PeakSearch {
  import opened Bits
  import opened Mmr

  /** From mountain `i` on there are at least its own nodes and fewer than twice as many more. */
  lemma {:induction false} TailBounds(s: Shape, i: nat)
    requires Decreasing(s) && i < |s|
    ensures 2 * Pow2(s[i]) - 1 <= NodeTotal(s) - NodesBefore(s, i) <= 4 * Pow2(s[i]) - 3
    decreases |s| - i
  {
    if i + 1 < |s| {
      TailBounds(s, i + 1);
      DecreasingAt(s, |s|, i, i + 1);
      DoubleBelow(s[i + 1], s[i]);
    }
  }

  /** With everything before mountain `i` taken, the position at altitude `alt` is in the array exactly when that mountain has that altitude. */
  lemma PeakTest(s: Shape, i: nat, alt: nat)
    requires Decreasing(s) && i <= |s|
    requires i < |s| ==> s[i] <= alt
    ensures NodesBefore(s, i) + 2 * Pow2(alt) - 2 < NodeTotal(s) <==> i < |s| && s[i] == alt
  {
    var base, total, w := NodesBefore(s, i), NodeTotal(s), Pow2(alt);
    if i == |s| {
      assert base == total;
    } else {
      TailBounds(s, i);
      var v := Pow2(s[i]);
      assert 2 * v - 1 <= total - base <= 4 * v - 3;
      if s[i] == alt {
        assert base + 2 * w - 2 < total;
      } else {
        DoubleBelow(s[i], alt);
        assert base + 2 * w - 2 >= total;
      }
    }
  }

  /** The size plus one fits 32 bits exactly for trees of fewer than 2^31 leaves. */
  lemma SizeFitsExactly(s: Shape)
    requires Decreasing(s)
    ensures NodeTotal(s) + 1 < U32_LIMIT <==> LeafTotal(s) < 0x8000_0000
    ensures s != [] && LeafTotal(s) < 0x8000_0000 ==> s[0] <= 30
  {
    NodesClosedForm(s, |s|);
    Pow2Of32();
    if s != [] {
      TailBounds(s, 0);
      LeafBounds(s, |s|);
      if s[0] >= 31 {
        Pow2Monotone(31, s[0]);
      } else {
        Pow2Monotone(s[0], 30);
        assert Pow2(30) * 2 == Pow2(31);
      }
    }
  }

  lemma {:induction false} LeafBounds(s: Shape, n: nat)
    requires 0 < n <= |s| && DecreasingTo(s, n)
    ensures Pow2(s[0]) <= LeavesBefore(s, n) <= 2 * Pow2(s[0]) - Pow2(s[n - 1])
  {
    if n == 1 {
      assert LeavesBefore(s, 0) == 0;
    } else {
      LeafBounds(s, n - 1);
      DoubleBelow(s[n - 1], s[n - 2]);
    }
  }

  /** Jumping to the right sibling stays within twice the leftmost mountain. */
  lemma {:induction false} Headroom(s: Shape, i: nat)
    requires Decreasing(s) && i < |s|
    ensures NodesBefore(s, i) + 4 * Pow2(s[i]) <= 4 * Pow2(s[0])
  {
    if i > 0 {
      Headroom(s, i - 1);
      DecreasingAt(s, |s|, i - 1, i);
      DoubleBelow(s[i], s[i - 1]);
    }
  }

  /** The altitude of the highest peak, read off the bit length of the size. */
  lemma HighestAltitude(s: Shape)
    requires s != [] && Decreasing(s) && LeafTotal(s) < 0x8000_0000
    ensures NodeTotal(s) + 1 < U32_LIMIT && s[0] <= 30
    ensures LeadingZeros(NodeTotal(s) + 1) == 30 - s[0]
  {
    SizeFitsExactly(s);
    TailBounds(s, 0);
    var n, h := NodeTotal(s) + 1, s[0];
    assert Pow2(h + 1) == 2 * Pow2(h) && Pow2(h + 2) == 4 * Pow2(h);
    BetweenPowers(n, 31 - LeadingZeros(n), h + 1);
  }

  lemma BetweenPowers(n: nat, a: nat, b: nat)
    requires Pow2(a) <= n < Pow2(a + 1) && Pow2(b) <= n < Pow2(b + 1)
    ensures a == b
  {
    if a < b { Pow2Monotone(a + 1, b); }
    if b < a { Pow2Monotone(b + 1, a); }
  }

  /** What the loop holds at its head: mountains before `i` are taken, and the search stands at altitude `alt`. */
  predicate Searching(s: Shape, i: nat, alt: nat, peakPos: nat) {
    && i <= |s|
    && alt <= 30
    && (i == 0 ==> s != [] && alt == s[0])
    && (i < |s| ==> s[i] <= alt)
    && peakPos == NodesBefore(s, i) + 2 * Pow2(alt) - 2
  }

  /** Dropping to the left child, without underflow, when no peak stands at this altitude. */
  lemma Descend(s: Shape, i: nat, alt: nat, peakPos: nat)
    requires Decreasing(s) && Searching(s, i, alt, peakPos) && (alt == 0 ==> i == 0)
    requires peakPos >= NodeTotal(s)
    ensures alt > 0 && i > 0 && Pow2(alt) <= peakPos && Searching(s, i, alt - 1, peakPos - Pow2(alt))
  {
    PeakTest(s, i, alt);
  }

  /** Taking mountain `i` and jumping to its right sibling, without overflow. */
  lemma TakePeak(s: Shape, i: nat, alt: nat, peakPos: nat)
    requires Decreasing(s) && Searching(s, i, alt, peakPos) && s[0] <= 30
    requires peakPos < NodeTotal(s)
    ensures i < |s| && peakPos == PeakPos(s, i) && peakPos + Pow2(alt + 1) < U32_LIMIT
    ensures Searching(s, i + 1, alt, peakPos + Pow2(alt + 1) - 1)
    ensures alt == 0 ==> i + 1 == |s|
  {
    PeakTest(s, i, alt);
    Headroom(s, i);
    Pow2Of32();
    Pow2Monotone(s[0], 30);
    if i + 1 < |s| { DecreasingAt(s, |s|, i, i + 1); }
  }

  /** Nothing is left to take once the search has come down to the leaves and found none there. */
  lemma Exhausted(s: Shape, i: nat, peakPos: nat)
    requires Decreasing(s) && Searching(s, i, 0, peakPos) && peakPos >= NodeTotal(s)
    ensures i == |s|
  {
    PeakTest(s, i, 0);
  }

  /** Where the search starts. */
  lemma Start(s: Shape)
    requires s != [] && Decreasing(s) && LeafTotal(s) < 0x8000_0000
    ensures NodeTotal(s) + 1 < U32_LIMIT && s[0] <= 30
    ensures LeadingZeros(NodeTotal(s) + 1) == 30 - s[0]
    ensures Searching(s, 0, s[0], Pow2(s[0] + 1) - 2)
  {
    HighestAltitude(s);
  }

  /**
   The loop of `prune`. Every 32-bit operation in it is shown not to overflow, and it terminates: an
   iteration lowers the altitude or, at the first peak only, keeps it and takes a peak.
   */
  method CollectPeaks(size: u32, ghost s: Shape) returns (peakPosSet: set<u32>)
    requires s != [] && Decreasing(s) && size == NodeTotal(s) && LeafTotal(s) < 0x8000_0000
    ensures peakPosSet == PeakPositions(s)
  {
    hide Pow2, LeadingZeros;
    Start(s);

    var alt: u32 := Sub32(Sub32(Sub32(32, LeadingZeros(Add32(size, 1))), 1), 1);
    var peakPos: u32 := Sub32(OneShl32(Add32(alt, 1)), 2);
    peakPosSet := {};
    ghost var i := 0;
    while true
      invariant Searching(s, i, alt, peakPos)
      invariant alt == 0 ==> i == 0
      invariant peakPosSet == FirstPeaks(s, i)
      decreases alt, |s| - i
    {
      if peakPos >= size {
        Descend(s, i, alt, peakPos);
        peakPos := Sub32(peakPos, OneShl32(alt));
        alt := Sub32(alt, 1);
      }
      if peakPos < size {
        TakePeak(s, i, alt, peakPos);
        peakPosSet := peakPosSet + {peakPos};
        peakPos := Sub32(Add32(peakPos, OneShl32(Add32(alt, 1))), 1);
        i := i + 1;
      } else if alt == 0 {
        Exhausted(s, i, peakPos);
      }
      if alt == 0 {
        break;
      }
    }
  }
}
