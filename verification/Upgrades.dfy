/** Network upgrades and their activation schedule. */
module Upgrades {
  import opened Wrappers

  datatype NetworkUpgrade =
    | Genesis | BeforeOverwinter | Overwinter | Sapling | Blossom | Heartwood | Canopy
    | Nu5 | Nu6 | Nu6_1 | Nu6_2 | Nu6_3 | Nu7

  /** The order of the variants, which is the order of activation. */
  function Rank(nu: NetworkUpgrade): nat {
    match nu
    case Genesis => 0
    case BeforeOverwinter => 1
    case Overwinter => 2
    case Sapling => 3
    case Blossom => 4
    case Heartwood => 5
    case Canopy => 6
    case Nu5 => 7
    case Nu6 => 8
    case Nu6_1 => 9
    case Nu6_2 => 10
    case Nu6_3 => 11
    case Nu7 => 12
  }

  function NextUpgrade(nu: NetworkUpgrade): (next: Option<NetworkUpgrade>)
    ensures next.Some? ==> Rank(next.value) == Rank(nu) + 1
  {
    match nu
    case Genesis => Some(BeforeOverwinter)
    case BeforeOverwinter => Some(Overwinter)
    case Overwinter => Some(Sapling)
    case Sapling => Some(Blossom)
    case Blossom => Some(Heartwood)
    case Heartwood => Some(Canopy)
    case Canopy => Some(Nu5)
    case Nu5 => Some(Nu6)
    case Nu6 => Some(Nu6_1)
    case Nu6_1 => Some(Nu6_2)
    case Nu6_2 => Some(Nu6_3)
    case Nu6_3 => Some(Nu7)
    case Nu7 => None
  }

  const MAX_HEIGHT: nat := 0x7FFF_FFFF

  /** A network's activation list, keyed by height. */
  datatype Network = Network(activations: map<nat, NetworkUpgrade>)

  /** Genesis holds height 0, heights are legal, and upgrades activate in their declared order. */
  predicate ValidSchedule(net: Network) {
    && 0 in net.activations && net.activations[0] == Genesis
    && (forall h :: h in net.activations ==> h <= MAX_HEIGHT)
    && (forall h, k :: h in net.activations && k in net.activations && h < k ==>
          Rank(net.activations[h]) < Rank(net.activations[k]))
  }

  /** The greatest listed height that is not above `height`. */
  function CurrentActivation(net: Network, height: nat): (a: nat)
    requires 0 in net.activations
    ensures a <= height && a in net.activations
    ensures forall h :: a < h <= height ==> h !in net.activations
  {
    if height in net.activations then height else CurrentActivation(net, height - 1)
  }

  function Current(net: Network, height: nat): NetworkUpgrade
    requires 0 in net.activations
  {
    net.activations[CurrentActivation(net, height)]
  }

  /** The lowest listed height from `from` on whose upgrade is `nu`. */
  function FindFrom(net: Network, nu: NetworkUpgrade, from: nat): (a: Option<nat>)
    ensures a.Some? ==> from <= a.value && a.value in net.activations && net.activations[a.value] == nu
    ensures forall h :: from <= h <= MAX_HEIGHT && h in net.activations && net.activations[h] == nu ==>
              a.Some? && a.value <= h
    decreases MAX_HEIGHT + 1 - from
  {
    if from > MAX_HEIGHT then None
    else if from in net.activations && net.activations[from] == nu then Some(from)
    else FindFrom(net, nu, from + 1)
  }

  /** An upgrade's own activation height, or else that of the first listed upgrade after it. */
  function ActivationHeight(net: Network, nu: NetworkUpgrade): Option<nat>
    decreases 12 - Rank(nu)
  {
    var own := FindFrom(net, nu, 0);
    if own.Some? then own
    else
      var next := NextUpgrade(nu);
      if next.Some? then ActivationHeight(net, next.value) else None
  }

  /** With the fallback, an activation height is the least listed height of that upgrade or any later one. */
  lemma {:induction false} ActivationHeightIsLeast(net: Network, nu: NetworkUpgrade)
    requires ValidSchedule(net)
    ensures
      match ActivationHeight(net, nu) {
        case Some(a) => a in net.activations && Rank(nu) <= Rank(net.activations[a])
                        && forall h :: h in net.activations && Rank(nu) <= Rank(net.activations[h]) ==> a <= h
        case None => forall h :: h in net.activations ==> Rank(net.activations[h]) < Rank(nu)
      }
    decreases 12 - Rank(nu)
  {
    var own := FindFrom(net, nu, 0);
    if own.None? {
      forall h | h in net.activations && Rank(nu) <= Rank(net.activations[h])
        ensures Rank(nu) < Rank(net.activations[h])
      {
        SameRank(nu, net.activations[h]);
      }
      if NextUpgrade(nu).Some? { ActivationHeightIsLeast(net, NextUpgrade(nu).value); }
    } else {
      forall h | h in net.activations && h < own.value ensures Rank(net.activations[h]) < Rank(nu) {}
    }
  }

  lemma SameRank(a: NetworkUpgrade, b: NetworkUpgrade)
    ensures Rank(a) == Rank(b) ==> a == b
  {
  }

  /** An upgrade or a later one is current exactly from its activation height on. */
  lemma CurrentReaches(net: Network, nu: NetworkUpgrade, height: nat)
    requires ValidSchedule(net)
    ensures
      var a := ActivationHeight(net, nu);
      Rank(nu) <= Rank(Current(net, height)) <==> a.Some? && a.value <= height
  {
    ActivationHeightIsLeast(net, nu);
    var a, k := ActivationHeight(net, nu), CurrentActivation(net, height);
    if a.Some? && a.value <= height {
      assert a.value <= k;
      if a.value < k { assert Rank(net.activations[a.value]) < Rank(net.activations[k]); }
    }
  }

  /** Two heights share their upgrade exactly when they share the height at which it became current. */
  lemma SameUpgradeSameActivation(net: Network, h: nat, k: nat)
    requires ValidSchedule(net)
    ensures Current(net, h) == Current(net, k) <==> CurrentActivation(net, h) == CurrentActivation(net, k)
  {
  }

  /** Moving up one height keeps the upgrade, unless that very height activates one. */
  lemma NextHeight(net: Network, h: nat)
    requires ValidSchedule(net)
    ensures CurrentActivation(net, h + 1) == if h + 1 in net.activations then h + 1 else CurrentActivation(net, h)
  {
  }
}
