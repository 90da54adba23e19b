/**
 Sharing a character budget by weight, each share capped at its room and the excess
 shared again: water-filling.
 */
module Spill {

  datatype Room = Finite(size: real) | Unbounded

  predicate Fits(share: real, room: Room) {
    room.Finite? ==> share <= room.size
  }

  function Least(share: real, room: Room): real {
    if room.Finite? && room.size <= share then room.size else share
  }

  /** What an item of this weight holds at a level: its weight times the level, or its room where that is less. */
  function Held(weight: real, room: Room, level: real): real {
    Least(level * weight, room)
  }

  function Sum(values: seq<real>): real {
    if values == [] then 0.0 else Sum(values[..|values| - 1]) + values[|values| - 1]
  }

  predicate NonNegative(values: seq<real>) {
    forall k :: 0 <= k < |values| ==> values[k] >= 0.0
  }

  predicate Roomy(rooms: seq<Room>) {
    forall k :: 0 <= k < |rooms| && rooms[k].Finite? ==> rooms[k].size >= 0.0
  }

  /** One level for all: every share is its weight times the level, or its room where that is less. */
  ghost predicate WaterFilled(shares: seq<real>, rooms: seq<Room>, weights: seq<real>, level: real) {
    && |shares| == |rooms| == |weights| && level >= 0.0
    && forall k :: 0 <= k < |shares| ==> shares[k] == Held(weights[k], rooms[k], level)
  }

  /** An item that can grow has its whole room. */
  predicate AllFull(shares: seq<real>, rooms: seq<Room>, weights: seq<real>) {
    && |shares| == |rooms| == |weights|
    && forall k :: 0 <= k < |shares| && weights[k] > 0.0 ==> rooms[k].Finite? && shares[k] == rooms[k].size
  }

  // ---------- Sums ----------

  lemma {:induction false} SumUpdate(values: seq<real>, k: nat, value: real)
    requires k < |values|
    ensures Sum(values[k := value]) == Sum(values) - values[k] + value
    decreases |values|
  {
    var last := |values| - 1;
    var changed := values[k := value];
    if k == last {
      assert changed[..last] == values[..last];
    } else {
      SumUpdate(values[..last], k, value);
      assert changed[..last] == values[..last][k := value];
    }
  }

  lemma SumStep(values: seq<real>, k: nat)
    requires k < |values|
    ensures Sum(values[..k + 1]) == Sum(values[..k]) + values[k]
  {
    assert values[..k + 1][..k] == values[..k];
  }

  lemma {:induction false} SumNonNegative(values: seq<real>)
    requires NonNegative(values)
    ensures Sum(values) >= 0.0 && (Sum(values) == 0.0 ==> forall k :: 0 <= k < |values| ==> values[k] == 0.0)
    decreases |values|
  {
    if values != [] {
      SumNonNegative(values[..|values| - 1]);
    }
  }

  function Growing(weights: seq<real>): nat {
    if weights == [] then 0 else Growing(weights[..|weights| - 1]) + if weights[|weights| - 1] > 0.0 then 1 else 0
  }

  lemma {:induction false} GrowingDrops(before: seq<real>, after: seq<real>)
    requires |before| == |after| && forall k :: 0 <= k < |before| ==> after[k] == before[k] || after[k] == 0.0
    ensures Growing(after) <= Growing(before)
    ensures (exists k :: 0 <= k < |before| && before[k] > 0.0 && after[k] == 0.0) ==> Growing(after) < Growing(before)
    decreases |before|
  {
    if before != [] {
      var last := |before| - 1;
      GrowingDrops(before[..last], after[..last]);
      if exists k :: 0 <= k < |before| && before[k] > 0.0 && after[k] == 0.0 {
        var k :| 0 <= k < |before| && before[k] > 0.0 && after[k] == 0.0;
        if k < last {
          assert before[..last][k] > 0.0 && after[..last][k] == 0.0;
        }
      }
    }
  }

  // ---------- Filling ----------

  /** Growing items hold the level's share, items with no weight left are full, the others have nothing. */
  ghost predicate Filling(shares: seq<real>, rooms: seq<Room>, weights: seq<real>, original: seq<real>, level: real) {
    && |shares| == |rooms| == |weights| == |original| && level >= 0.0
    && forall k :: 0 <= k < |shares| ==> Filled(shares[k], rooms[k], weights[k], original[k], level)
  }

  ghost predicate Filled(share: real, room: Room, weight: real, original: real, level: real) {
    if original == 0.0 then share == 0.0 && weight == 0.0
    else if weight == 0.0 then room.Finite? && share == room.size && room.size <= level * original
    else weight == original && share == level * weight && Fits(share, room)
  }

  lemma FillingIsWater(shares: seq<real>, rooms: seq<Room>, weights: seq<real>, original: seq<real>, level: real)
    requires Filling(shares, rooms, weights, original, level) && NonNegative(original) && Roomy(rooms)
    ensures WaterFilled(shares, rooms, original, level)
    ensures (forall k :: 0 <= k < |weights| ==> weights[k] == 0.0) ==> AllFull(shares, rooms, original)
  {
    forall k | 0 <= k < |shares| ensures shares[k] == Held(original[k], rooms[k], level) {
      assert Filled(shares[k], rooms[k], weights[k], original[k], level);
    }
    if forall k :: 0 <= k < |weights| ==> weights[k] == 0.0 {
      forall k | 0 <= k < |shares| && original[k] > 0.0 ensures rooms[k].Finite? && shares[k] == rooms[k].size {
        assert Filled(shares[k], rooms[k], weights[k], original[k], level);
      }
    }
  }

  /** One item's part of the spare, by weight. */
  function Part(spare: real, weight: real, total: real): real
    requires total > 0.0
  {
    spare * weight / total
  }

  /** Sharing the spare by weight raises the level by `rise`. */
  ghost predicate Rises(rise: real, spare: real, total: real)
    requires total > 0.0
  {
    rise >= 0.0 && rise * total == spare && forall weight: real :: Part(spare, weight, total) == rise * weight
  }

  lemma SpareRises(spare: real, total: real) returns (rise: real)
    requires spare >= 0.0 && total > 0.0
    ensures rise >= 0.0 && Rises(rise, spare, total)
  {
    rise := spare / total;
  }

  // One item takes its part; what overflows its room spills.
  lemma FilledOn(share: real, room: Room, weight: real, original: real, level: real, rise: real)
    requires Filled(share, room, weight, original, level) && level >= 0.0 && original >= 0.0 && rise >= 0.0
    ensures var (more, after, spilt) := Turn(share, room, weight, rise * weight);
            Filled(more, room, after, original, level + rise)
  {
    assert (level + rise) * original == level * original + rise * original;
    assert rise * original >= 0.0;
  }

  lemma FillingWeights(shares: seq<real>, rooms: seq<Room>, weights: seq<real>, original: seq<real>, level: real)
    requires Filling(shares, rooms, weights, original, level) && NonNegative(original)
    ensures NonNegative(weights)
    ensures (exists k :: 0 <= k < |weights| && weights[k] != 0.0) ==> Sum(weights) > 0.0
  {
    forall k | 0 <= k < |weights| ensures weights[k] >= 0.0 {
      assert Filled(shares[k], rooms[k], weights[k], original[k], level);
    }
    SumNonNegative(weights);
  }

  // What is shared, what spilled, and what the items still to come will take.
  ghost predicate Balanced(shares: seq<real>, over: real, rise: real, pending: real, before: real, spare: real) {
    Sum(shares) + over + rise * pending == before + spare
  }

  lemma BalanceStep(shares: seq<real>, k: nat, share: real, more: real, over: real, rise: real, pending: real,
          weight: real,
                    before: real, spare: real)
    requires k < |shares| && Balanced(shares, over, rise, pending, before, spare) && more == shares[k] + rise * weight
    ensures Balanced(shares[k := share], over + (more - share), rise, pending - weight, before, spare)
  {
    SumUpdate(shares, k, share);
    assert rise * (pending - weight) == rise * pending - rise * weight;
  }

  /** One item's turn: its share, its weight, and what spills over its room. */
  function Turn(share: real, room: Room, weight: real, part: real): (real, real, real) {
    if weight == 0.0 then (share, weight, 0.0)
    else if room.Finite? && share + part >= room.size then (room.size, 0.0, share + part - room.size)
    else (share + part, weight, 0.0)
  }

  /** A round under way: the items before `k` have had their turn. */
  ghost predicate UnderWay(k: nat, shares: seq<real>, weights: seq<real>, over: real,
                           had: seq<real>, was: seq<real>, rooms: seq<Room>, original: seq<real>, risen: real)
  {
    && |shares| == |weights| == |had| == |was| == |rooms| == |original| && k <= |had|
    && (forall j :: 0 <= j < k ==> Filled(shares[j], rooms[j], weights[j], original[j], risen))
    && (forall j :: k <= j < |had| ==> shares[j] == had[j] && weights[j] == was[j])
    && (forall j :: 0 <= j < k ==> weights[j] == was[j] || weights[j] == 0.0)
    && over >= 0.0 && (over == 0.0 || exists j :: 0 <= j < k && was[j] > 0.0 && weights[j] == 0.0)
  }

  // The item's turn, taken with its part, leaves it filled to the new level.
  lemma TurnFills(share: real, room: Room, weight: real, original: real, level: real, rise: real, spare: real,
          total: real)
    requires Filled(share, room, weight, original, level) && level >= 0.0 && original >= 0.0
    requires total > 0.0 && Rises(rise, spare, total)
    ensures var turn := Turn(share, room, weight, Part(spare, weight, total));
            Filled(turn.0, room, turn.1, original, level + rise) && (turn.2 > 0.0 ==> weight > 0.0)
  {
    assert Part(spare, weight, total) == rise * weight;
    FilledOn(share, room, weight, original, level, rise);
  }

  lemma UnderWayOn(k: nat, shares: seq<real>, weights: seq<real>, over: real, had: seq<real>, was: seq<real>,
                   rooms: seq<Room>, original: seq<real>, risen: real, part: real)
    requires UnderWay(k, shares, weights, over, had, was, rooms, original, risen) && k < |had|
    requires var turn := Turn(shares[k], rooms[k], weights[k], part);
             Filled(turn.0, rooms[k], turn.1, original[k], risen) && (turn.2 > 0.0 ==> weights[k] > 0.0)
    ensures var turn := Turn(shares[k], rooms[k], weights[k], part);
            UnderWay(k + 1, shares[k := turn.0], weights[k := turn.1], over + turn.2, had, was, rooms, original, risen)
  {
    hide Filled;
    var turn := Turn(shares[k], rooms[k], weights[k], part);
    var after := weights[k := turn.1];
    if turn.2 > 0.0 {
      assert was[k] > 0.0 && after[k] == 0.0;
    } else if over != 0.0 {
      var j :| 0 <= j < k && was[j] > 0.0 && weights[j] == 0.0;
      assert after[j] == 0.0;
    }
  }

  lemma BalanceOn(k: nat, shares: seq<real>, room: Room, weight: real, over: real, rise: real, spare: real, total: real,
                  was: seq<real>, before: real)
    requires k < |shares| && k < |was| && was[k] == weight && total > 0.0 && Rises(rise, spare, total)
    requires Balanced(shares, over, rise, total - Sum(was[..k]), before, spare)
    ensures var turn := Turn(shares[k], room, weight, Part(spare, weight, total));
            Balanced(shares[k := turn.0], over + turn.2, rise, total - Sum(was[..k + 1]), before, spare)
  {
    var turn := Turn(shares[k], room, weight, Part(spare, weight, total));
    assert Part(spare, weight, total) == rise * weight;
    SumStep(was, k);
    hide Part, Rises;
    BalanceStep(shares, k, turn.0, shares[k] + rise * weight, over, rise, total - Sum(was[..k]), weight, before, spare);
  }

  lemma NoneTaken(was: seq<real>, had: seq<real>, rise: real, spare: real, total: real)
    requires total > 0.0 && Rises(rise, spare, total)
    ensures Balanced(had, 0.0, rise, total - Sum(was[..0]), Sum(had), spare)
  {
    assert total - Sum(was[..0]) == total;
  }

  lemma AllTaken(shares: seq<real>, over: real, rise: real, spare: real, total: real, was: seq<real>, had: seq<real>)
    requires total == Sum(was) && Balanced(shares, over, rise, total - Sum(was[..|was|]), Sum(had), spare)
    ensures Sum(shares) + over == Sum(had) + spare
  {
    assert was[..|was|] == was;
    assert Balanced(shares, over, rise, 0.0, Sum(had), spare);
  }

  /** One round: every growing item takes its part, and what the full ones cannot hold is left over. */
  method Round(spare: real, rooms: seq<Room>, weights: array<real>, shares: array<real>,
               ghost original: seq<real>, ghost level: real)
    returns (over: real, ghost risen: real)
    requires weights != shares && spare > 1.0 && NonNegative(original) && Roomy(rooms)
    requires Filling(shares[..], rooms, weights[..], original, level)
    requires exists k :: 0 <= k < weights.Length && weights[k] != 0.0
    modifies weights, shares
    ensures Filling(shares[..], rooms, weights[..], original, risen)
    ensures Sum(shares[..]) + over == Sum(old(shares[..])) + spare && over >= 0.0
    ensures Growing(weights[..]) < Growing(old(weights[..])) || (Growing(weights[..]) == Growing(old(weights[..])) && over == 0.0)
  {
    hide Filled, Sum, Part, Rises, Balanced, Growing;
    FillingWeights(shares[..], rooms, weights[..], original, level);
    ghost var was, had := weights[..], shares[..];
    var total := SumOf(weights);
    ghost var rise := SpareRises(spare, total);
    NoneTaken(was, had, rise, spare, total);
    risen := level + rise;
    over := 0.0;
    for k := 0 to weights.Length
      invariant UnderWay(k, shares[..], weights[..], over, had, was, rooms, original, risen)
      invariant Balanced(shares[..], over, rise, total - Sum(was[..k]), Sum(had), spare)
    {
      var weight := weights[k];
      ghost var shared, weighed := shares[..], weights[..];
      assert Filled(had[k], rooms[k], was[k], original[k], level);
      TurnFills(had[k], rooms[k], was[k], original[k], level, rise, spare, total);
      UnderWayOn(k, shared, weighed, over, had, was, rooms, original, risen, Part(spare, weight, total));
      BalanceOn(k, shared, rooms[k], weight, over, rise, spare, total, was, Sum(had));
      ghost var turn := Turn(shares[k], rooms[k], weight, Part(spare, weight, total));
      if weight != 0.0 {
        shares[k] := shares[k] + Part(spare, weight, total);
        if rooms[k].Finite? && shares[k] >= rooms[k].size {
          over := over + (shares[k] - rooms[k].size);
          shares[k], weights[k] := rooms[k].size, 0.0;
        }
      }
      assert shares[..] == shared[k := turn.0] && weights[..] == weighed[k := turn.1];
    }
    AllTaken(shares[..], over, rise, spare, total, was, had);
    GrowingDrops(was, weights[..]);
  }

  method SumOf(values: array<real>) returns (total: real)
    ensures total == Sum(values[..])
  {
    total := 0.0;
    for k := 0 to values.Length
      invariant total == Sum(values[..k])
    {
      SumStep(values[..], k);
      assert values[..][..k + 1] == values[..k + 1] && values[..][..k] == values[..k];
      total := total + values[k];
    }
    assert values[..values.Length] == values[..];
  }

  lemma {:induction false} NothingShared(shares: seq<real>)
    requires forall k :: 0 <= k < |shares| ==> shares[k] == 0.0
    ensures Sum(shares) == 0.0
    decreases |shares|
  {
    if shares != [] {
      NothingShared(shares[..|shares| - 1]);
    }
  }

  method Share(spare0: real, rooms: seq<Room>, weights: array<real>)
    returns (shares: array<real>, ghost level: real, ghost leftover: real)
    requires weights.Length == |rooms| && NonNegative(weights[..]) && Roomy(rooms) && spare0 >= 0.0
    modifies weights
    ensures fresh(shares) && WaterFilled(shares[..], rooms, old(weights[..]), level)
    ensures Sum(shares[..]) + leftover == spare0 && leftover >= 0.0
    ensures leftover <= 1.0 || AllFull(shares[..], rooms, old(weights[..]))
  {
    ghost var original := weights[..];
    shares := new real[|rooms|](k => 0.0);
    level := 0.0;
    var spare := spare0;
    NothingShared(shares[..]);
    while spare > 1.0 && exists k :: 0 <= k < weights.Length && weights[k] != 0.0
      invariant Filling(shares[..], rooms, weights[..], original, level)
      invariant Sum(shares[..]) + spare == spare0 && spare >= 0.0
      decreases Growing(weights[..]), if spare > 1.0 then 1 else 0
    {
      spare, level := Round(spare, rooms, weights, shares, original, level);
    }
    leftover := spare;
    FillingIsWater(shares[..], rooms, weights[..], original, level);
  }

  // ---------- The level decides ----------

  lemma {:induction false} SumGrows(a: seq<real>, b: seq<real>)
    requires |a| == |b| && forall k :: 0 <= k < |a| ==> a[k] <= b[k]
    ensures Sum(a) <= Sum(b) && (Sum(a) == Sum(b) ==> a == b)
    decreases |a|
  {
    if a != [] {
      var last := |a| - 1;
      SumGrows(a[..last], b[..last]);
      assert a == a[..last] + [a[last]] && b == b[..last] + [b[last]];
    }
  }

  lemma HeldGrows(weight: real, room: Room, low: real, high: real)
    requires weight >= 0.0 && low <= high
    ensures Held(weight, room, low) <= Held(weight, room, high)
  {
    ProductGrows(weight, low, high);
    var less, more := low * weight, high * weight;
    LeastKeepsOrder(less, more, room);
  }

  lemma ProductGrows(weight: real, low: real, high: real)
    requires weight >= 0.0 && low <= high
    ensures low * weight <= high * weight
  {
    assert (high - low) * weight >= 0.0;
    assert (high - low) * weight == high * weight - low * weight;
  }

  lemma LeastKeepsOrder(less: real, more: real, room: Room)
    requires less <= more
    ensures Least(less, room) <= Least(more, room)
  {
  }

  lemma HigherFillsMore(a: seq<real>, b: seq<real>, rooms: seq<Room>, weights: seq<real>, low: real, high: real)
    requires WaterFilled(a, rooms, weights, low) && WaterFilled(b, rooms, weights, high) && low <= high && NonNegative(weights)
    ensures forall k :: 0 <= k < |a| ==> a[k] <= b[k]
  {
    hide Held;
    forall k | 0 <= k < |a| ensures a[k] <= b[k] {
      HeldGrows(weights[k], rooms[k], low, high);
    }
  }

  /** However it was reached, a water-filling of a given amount is the only one. */
  lemma WaterFillingIsUnique(a: seq<real>, b: seq<real>, rooms: seq<Room>, weights: seq<real>, low: real, high: real)
    requires WaterFilled(a, rooms, weights, low) && WaterFilled(b, rooms, weights, high) && NonNegative(weights)
    requires Sum(a) == Sum(b)
    ensures a == b
  {
    if low <= high {
      HigherFillsMore(a, b, rooms, weights, low, high);
      SumGrows(a, b);
    } else {
      HigherFillsMore(b, a, rooms, weights, high, low);
      SumGrows(b, a);
    }
  }
}
