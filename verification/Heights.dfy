/**
 Rule heights: the least number of required rule expansions a rule needs.

 Heights are naturals with infinity; an infinite height marks a rule that derives
 no finite string.
 */
module Heights {
  import opened Grammars

  // ---------- Naturals with infinity ----------

  datatype Cost = Finite(n: nat) | Infinite

  predicate Le(a: Cost, b: Cost) {
    b.Infinite? || (a.Finite? && a.n <= b.n)
  }

  function Plus(a: Cost, b: Cost): Cost {
    if a.Finite? && b.Finite? then Finite(a.n + b.n) else Infinite
  }

  function Min(a: Cost, b: Cost): Cost {
    if Le(a, b) then a else b
  }

  // ---------- What an expansion spends ----------

  type HeightMap = map<string, Cost>

  function AtomCost(atom: Atom, heights: HeightMap): Cost
    decreases atom
  {
    match atom
    case Literal(_) => Finite(0)
    case CharClass(_) => Finite(0)
    case RuleRef(name) => if name in heights then heights[name] else Finite(0)
    case Group(body) => AltCost(body, heights)
  }

  function ItemCost(item: Item, heights: HeightMap): Cost
    decreases item
  {
    if item.quantifier.lo == 0 then Finite(0) else AtomCost(item.atom, heights)
  }

  function ArmCost(items: seq<Item>, heights: HeightMap): Cost
    decreases items
  {
    if items == [] then Finite(0)
    else Plus(ArmCost(items[..|items| - 1], heights), ItemCost(items[|items| - 1], heights))
  }

  function AltCost(body: Alternation, heights: HeightMap): Cost
    decreases body
  {
    CheapestArm(body.arms, heights)
  }

  function CheapestArm(arms: seq<Sequence>, heights: HeightMap): Cost
    decreases arms
  {
    if arms == [] then Infinite
    else Min(CheapestArm(arms[..|arms| - 1], heights), ArmCost(arms[|arms| - 1].items, heights))
  }

  function Demand(rules: Rules, heights: HeightMap, name: string): Cost
    requires name in rules
  {
    Plus(Finite(1), AltCost(rules[name], heights))
  }

  /** `heights` solves the cost equations of `rules`. */
  ghost predicate Solves(rules: Rules, heights: HeightMap) {
    && heights.Keys == rules.Keys
    && forall name :: name in rules ==> heights[name] == Demand(rules, heights, name)
  }

  // ---------- Sums and minima ----------

  lemma {:induction false} ItemWithinArm(items: seq<Item>, heights: HeightMap, k: nat)
    requires k < |items|
    ensures Le(ItemCost(items[k], heights), ArmCost(items, heights))
  {
    if k < |items| - 1 {
      ItemWithinArm(items[..|items| - 1], heights, k);
    }
  }

  lemma {:induction false} AltBelowArm(arms: seq<Sequence>, heights: HeightMap, k: nat)
    requires k < |arms|
    ensures Le(CheapestArm(arms, heights), ArmCost(arms[k].items, heights))
  {
    if k < |arms| - 1 {
      AltBelowArm(arms[..|arms| - 1], heights, k);
    }
  }

  lemma {:induction false} CheapestArmExists(arms: seq<Sequence>, heights: HeightMap) returns (k: nat)
    requires arms != []
    ensures k < |arms| && ArmCost(arms[k].items, heights) == CheapestArm(arms, heights)
  {
    k := |arms| - 1;
    if |arms| > 1 {
      var j := CheapestArmExists(arms[..|arms| - 1], heights);
      if CheapestArm(arms, heights) == CheapestArm(arms[..|arms| - 1], heights) {
        k := j;
      }
    }
  }

  // ---------- Costs are monotone in the heights ----------

  /** Where `high` is finite and below `bound`, `low` is no larger. */
  ghost predicate BelowUnder(low: HeightMap, high: HeightMap, bound: nat) {
    && low.Keys == high.Keys
    && forall name :: name in high && high[name].Finite? && high[name].n < bound ==> Le(low[name], high[name])
  }

  lemma {:induction false} AtomBelow(atom: Atom, low: HeightMap, high: HeightMap, bound: nat)
    requires BelowUnder(low, high, bound)
    requires AtomCost(atom, high).Finite? && AtomCost(atom, high).n < bound
    ensures Le(AtomCost(atom, low), AtomCost(atom, high))
    decreases atom
  {
    if atom.Group? {
      AltBelow(atom.body, low, high, bound);
    }
  }

  lemma {:induction false} ArmBelow(items: seq<Item>, low: HeightMap, high: HeightMap, bound: nat)
    requires BelowUnder(low, high, bound)
    requires ArmCost(items, high).Finite? && ArmCost(items, high).n < bound
    ensures Le(ArmCost(items, low), ArmCost(items, high))
    decreases items
  {
    if items != [] {
      ArmBelow(items[..|items| - 1], low, high, bound);
      ItemBelow(items[|items| - 1], low, high, bound);
    }
  }

  lemma {:induction false} ItemBelow(item: Item, low: HeightMap, high: HeightMap, bound: nat)
    requires BelowUnder(low, high, bound)
    requires ItemCost(item, high).Finite? && ItemCost(item, high).n < bound
    ensures Le(ItemCost(item, low), ItemCost(item, high))
    decreases item
  {
    if item.quantifier.lo != 0 {
      AtomBelow(item.atom, low, high, bound);
    }
  }

  lemma {:induction false} AltBelow(body: Alternation, low: HeightMap, high: HeightMap, bound: nat)
    requires BelowUnder(low, high, bound)
    requires AltCost(body, high).Finite? && AltCost(body, high).n < bound
    ensures Le(AltCost(body, low), AltCost(body, high))
    decreases body
  {
    var k := CheapestArmExists(body.arms, high);
    ArmBelow(body.arms[k].items, low, high, bound);
    AltBelowArm(body.arms, low, k);
  }

  ghost predicate Below(low: HeightMap, high: HeightMap) {
    low.Keys == high.Keys && forall name :: name in high ==> Le(low[name], high[name])
  }

  lemma AltMonotone(body: Alternation, low: HeightMap, high: HeightMap)
    requires Below(low, high)
    ensures Le(AltCost(body, low), AltCost(body, high))
  {
    if AltCost(body, high).Finite? {
      AltBelow(body, low, high, AltCost(body, high).n + 1);
    }
  }

  // ---------- The solution is unique ----------

  lemma {:induction false} SolutionBelow(rules: Rules, low: HeightMap, high: HeightMap, bound: nat)
    requires Solves(rules, low) && Solves(rules, high)
    ensures BelowUnder(low, high, bound)
  {
    if bound > 0 {
      SolutionBelow(rules, low, high, bound - 1);
      forall name | name in high && high[name].Finite? && high[name].n < bound
        ensures Le(low[name], high[name])
      {
        assert high[name] == Demand(rules, high, name);
        AltBelow(rules[name], low, high, bound - 1);
        assert low[name] == Demand(rules, low, name);
      }
    }
  }

  /** The cost equations have one solution only. */
  lemma SolutionUnique(rules: Rules, one: HeightMap, other: HeightMap)
    requires Solves(rules, one) && Solves(rules, other)
    ensures one == other
  {
    forall name | name in rules
      ensures one[name] == other[name]
    {
      var top := Max(one[name], other[name]) + 1;
      SolutionBelow(rules, one, other, top);
      SolutionBelow(rules, other, one, top);
    }
  }

  function Max(a: Cost, b: Cost): nat {
    var x := if a.Finite? then a.n else 0;
    var y := if b.Finite? then b.n else 0;
    if x < y then y else x
  }

  // ---------- The fixpoint terminates ----------

  ghost function InfiniteIn(names: seq<string>, heights: HeightMap): nat {
    if names == [] then 0
    else InfiniteIn(names[1..], heights) + (if names[0] in heights && heights[names[0]].Infinite? then 1 else 0)
  }

  ghost function SumIn(names: seq<string>, heights: HeightMap): nat {
    if names == [] then 0
    else SumIn(names[1..], heights) + (if names[0] in heights && heights[names[0]].Finite? then heights[names[0]].n else 0)
  }

  // Lowering one height lowers the pair (infinite heights, sum of the finite ones).
  lemma {:induction false} LoweringCounts(names: seq<string>, low: HeightMap, high: HeightMap, name: string)
    requires name in high && name in low && low == high[name := low[name]]
    requires Le(low[name], high[name]) && low[name] != high[name]
    ensures InfiniteIn(names, low) <= InfiniteIn(names, high)
    ensures InfiniteIn(names, low) == InfiniteIn(names, high) ==> SumIn(names, low) <= SumIn(names, high)
    ensures name in names ==>
              InfiniteIn(names, low) < InfiniteIn(names, high)
              || (InfiniteIn(names, low) == InfiniteIn(names, high) && SumIn(names, low) < SumIn(names, high))
  {
    if names != [] {
      LoweringCounts(names[1..], low, high, name);
    }
  }

  lemma Listing(names: set<string>) returns (list: seq<string>)
    ensures forall name :: name in names ==> name in list
  {
    list := [];
    if names != {} {
      var name :| name in names;
      var rest := Listing(names - {name});
      list := [name] + rest;
    }
  }

  /** One round of the fixpoint never raises a height, and keeps demands below heights. */
  lemma DemandsStayBelow(rules: Rules, heights: HeightMap, name: string)
    requires heights.Keys == rules.Keys && name in rules
    requires forall other :: other in rules ==> Le(Demand(rules, heights, other), heights[other])
    ensures var lowered := heights[name := Demand(rules, heights, name)];
            forall other :: other in rules ==> Le(Demand(rules, lowered, other), lowered[other])
  {
    var lowered := heights[name := Demand(rules, heights, name)];
    forall other | other in rules
      ensures Le(Demand(rules, lowered, other), lowered[other])
    {
      AltMonotone(rules[other], lowered, heights);
    }
  }

  /** Every demand is at or below its height. */
  ghost predicate Lowerable(rules: Rules, heights: HeightMap) {
    && heights.Keys == rules.Keys
    && forall name :: name in rules ==> Le(Demand(rules, heights, name), heights[name])
  }

  /** And, for these rules, at it. */
  ghost predicate Met(rules: Rules, heights: HeightMap, names: set<string>) {
    heights.Keys == rules.Keys && forall name :: name in names && name in rules ==> Le(heights[name], Demand(rules, heights, name))
  }

  ghost predicate Fewer(list: seq<string>, low: HeightMap, high: HeightMap) {
    || InfiniteIn(list, low) < InfiniteIn(list, high)
    || (InfiniteIn(list, low) == InfiniteIn(list, high) && SumIn(list, low) < SumIn(list, high))
  }

  // A height above its demand is lowered to it: less is left to lower.
  lemma LoweredOne(rules: Rules, heights: HeightMap, list: seq<string>, name: string)
    requires Lowerable(rules, heights) && name in rules && name in list && !Le(heights[name], Demand(rules, heights, name))
    ensures var lowered := heights[name := Demand(rules, heights, name)];
            Lowerable(rules, lowered) && Fewer(list, lowered, heights)
  {
    hide Demand, InfiniteIn, SumIn;
    DemandsStayBelow(rules, heights, name);
    LoweringCounts(list, heights[name := Demand(rules, heights, name)], heights, name);
  }

  lemma AllInfinite(rules: Rules)
    ensures Lowerable(rules, map name | name in rules :: Infinite)
  {
  }

  lemma MetIsSolved(rules: Rules, heights: HeightMap)
    requires Lowerable(rules, heights) && Met(rules, heights, rules.Keys)
    ensures Solves(rules, heights)
  {
    hide Demand;
    forall name | name in rules ensures heights[name] == Demand(rules, heights, name) {
      assert Le(heights[name], Demand(rules, heights, name)) && Le(Demand(rules, heights, name), heights[name]);
    }
  }

  lemma MetOneMore(rules: Rules, heights: HeightMap, names: set<string>, name: string)
    requires Met(rules, heights, names) && name in rules && Le(heights[name], Demand(rules, heights, name))
    ensures Met(rules, heights, names + {name})
  {
  }

  /** The minimal expansion heights of every rule, by decreasing fixpoint. */
  method RuleHeights(rules: Rules) returns (heights: HeightMap)
    ensures Solves(rules, heights)
  {
    hide Lowerable, Met, Fewer, InfiniteIn, SumIn, AltCost;
    heights := map name | name in rules :: Infinite;
    AllInfinite(rules);
    ghost var list := Listing(rules.Keys);
    var changed := true;
    while changed
      invariant heights.Keys == rules.Keys && Lowerable(rules, heights)
      invariant !changed ==> Met(rules, heights, rules.Keys)
      decreases InfiniteIn(list, heights), SumIn(list, heights), changed
    {
      changed := false;
      ghost var before := heights;
      var pending := rules.Keys;
      NoneMet(rules, heights);
      while pending != {}
        invariant pending <= rules.Keys == heights.Keys && Lowerable(rules, heights)
        invariant if changed then Fewer(list, heights, before) else heights == before && Met(rules, heights, rules.Keys - pending)
        decreases pending
      {
        var name :| name in pending;
        ghost var rest := pending - {name};
        assert rules.Keys - rest == (rules.Keys - pending) + {name};
        pending := pending - {name};
        var best := Plus(Finite(1), AltCost(rules[name], heights));
        if !Le(heights[name], best) {
          LoweredOne(rules, heights, list, name);
          FewerOnceMore(list, heights[name := best], heights, before, changed);
          heights := heights[name := best];
          changed := true;
        } else if !changed {
          MetOneMore(rules, heights, rules.Keys - rest - {name}, name);
          assert rules.Keys - rest - {name} + {name} == rules.Keys - rest;
        }
      }
      FewerIsLess(list, heights, before, changed);
      assert rules.Keys - {} == rules.Keys;
    }
    MetIsSolved(rules, heights);
  }

  lemma NoneMet(rules: Rules, heights: HeightMap)
    requires heights.Keys == rules.Keys
    ensures rules.Keys - rules.Keys == {} && Met(rules, heights, {})
  {
  }

  lemma FewerOnceMore(list: seq<string>, low: HeightMap, middle: HeightMap, high: HeightMap, changed: bool)
    requires Fewer(list, low, middle) && if changed then Fewer(list, middle, high) else middle == high
    ensures Fewer(list, low, high)
  {
  }

  lemma FewerIsLess(list: seq<string>, low: HeightMap, high: HeightMap, changed: bool)
    requires changed ==> Fewer(list, low, high)
    ensures changed ==> InfiniteIn(list, low) < InfiniteIn(list, high)
                        || (InfiniteIn(list, low) == InfiniteIn(list, high) && SumIn(list, low) < SumIn(list, high))
  {
  }

  // ---------- Heights measure derivations ----------

  /** The rule expansions a derivation spends on its required items, one occurrence each. */
  ghost function Weight(rules: Rules, atom: Atom, node: Node): nat
    requires Derives(rules, atom, node)
    decreases node
  {
    match atom
    case Literal(_) => 0
    case CharClass(_) => 0
    case RuleRef(name) => 1 + PickWeight(rules, rules[name], node.pick)
    case Group(body) => PickWeight(rules, body, node.pick)
  }

  ghost function PickWeight(rules: Rules, body: Alternation, pick: Pick): nat
    requires DerivesPick(rules, body, pick)
    decreases pick
  {
    ArmWeight(rules, body.arms[pick.arm].items, pick.runs)
  }

  ghost function ArmWeight(rules: Rules, items: seq<Item>, runs: seq<Run>): nat
    requires DerivesArm(rules, items, runs)
    decreases runs
  {
    if runs == [] then 0
    else
      var last := |runs| - 1;
      ArmWeight(rules, items[..last], runs[..last]) + RunWeight(rules, items[last], runs[last])
  }

  ghost function RunWeight(rules: Rules, item: Item, run: Run): nat
    requires DerivesRun(rules, item, run)
    decreases run
  {
    if item.quantifier.lo == 0 then 0 else Weight(rules, item.atom, run.nodes[0])
  }

  /** No derivation of an atom weighs less than its cost. */
  lemma {:induction false} CostIsLeast(rules: Rules, heights: HeightMap, atom: Atom, node: Node)
    requires Solves(rules, heights) && Derives(rules, atom, node)
    ensures Le(AtomCost(atom, heights), Finite(Weight(rules, atom, node)))
    decreases node
  {
    match atom
    case Literal(_) =>
    case CharClass(_) =>
    case RuleRef(name) =>
      assert heights[name] == Demand(rules, heights, name);
      AltCostIsLeast(rules, heights, rules[name], node.pick);
    case Group(body) => AltCostIsLeast(rules, heights, body, node.pick);
  }

  lemma {:induction false} AltCostIsLeast(rules: Rules, heights: HeightMap, body: Alternation, pick: Pick)
    requires Solves(rules, heights) && DerivesPick(rules, body, pick)
    ensures Le(AltCost(body, heights), Finite(PickWeight(rules, body, pick)))
    decreases pick
  {
    ArmCostIsLeast(rules, heights, body.arms[pick.arm].items, pick.runs);
    AltBelowArm(body.arms, heights, pick.arm);
  }

  lemma {:induction false} ArmCostIsLeast(rules: Rules, heights: HeightMap, items: seq<Item>, runs: seq<Run>)
    requires Solves(rules, heights) && DerivesArm(rules, items, runs)
    ensures Le(ArmCost(items, heights), Finite(ArmWeight(rules, items, runs)))
    decreases runs
  {
    if runs != [] {
      var last := |runs| - 1;
      ArmCostIsLeast(rules, heights, items[..last], runs[..last]);
      RunCostIsLeast(rules, heights, items[last], runs[last]);
    }
  }

  lemma {:induction false} RunCostIsLeast(rules: Rules, heights: HeightMap, item: Item, run: Run)
    requires Solves(rules, heights) && DerivesRun(rules, item, run)
    ensures Le(ItemCost(item, heights), Finite(RunWeight(rules, item, run)))
    decreases run
  {
    if item.quantifier.lo != 0 {
      CostIsLeast(rules, heights, item.atom, run.nodes[0]);
    }
  }

  /** The atom's cost is spent by some derivation, when it is finite. */
  lemma {:induction false} CostIsReached(rules: Rules, heights: HeightMap, atom: Atom) returns (node: Node)
    requires WellFormed(rules) && Closed(rules, rules.Keys) && Solves(rules, heights)
    requires GroundedAtom(rules.Keys, atom) && (atom.Group? ==> WellFormedAlt(atom.body))
    requires AtomCost(atom, heights).Finite?
    ensures Derives(rules, atom, node)
    ensures Weight(rules, atom, node) == AtomCost(atom, heights).n
    decreases AtomCost(atom, heights).n, atom
  {
    match atom
    case Literal(text) => node := Leaf(text);
    case CharClass(members) =>
      var c :| c in members;
      node := Leaf([c]);
    case RuleRef(name) =>
      assert heights[name] == Demand(rules, heights, name);
      var pick := AltCostIsReached(rules, heights, rules[name]);
      node := RuleNode(name, pick);
    case Group(body) =>
      var pick := AltCostIsReached(rules, heights, body);
      node := GroupNode(pick);
  }

  lemma {:induction false} AltCostIsReached(rules: Rules, heights: HeightMap, body: Alternation) returns (pick: Pick)
    requires WellFormed(rules) && Closed(rules, rules.Keys) && Solves(rules, heights)
    requires GroundedAlt(rules.Keys, body) && WellFormedAlt(body)
    requires AltCost(body, heights).Finite?
    ensures DerivesPick(rules, body, pick)
    ensures PickWeight(rules, body, pick) == AltCost(body, heights).n
    decreases AltCost(body, heights).n, body
  {
    var k := CheapestArmExists(body.arms, heights);
    assert GroundedArm(rules.Keys, body.arms[k]) && WellFormedArm(body.arms[k]);
    var runs := ArmCostIsReached(rules, heights, body.arms[k].items);
    pick := Pick(k, runs);
  }

  lemma {:induction false} ArmCostIsReached(rules: Rules, heights: HeightMap, items: seq<Item>) returns (runs: seq<Run>)
    requires WellFormed(rules) && Closed(rules, rules.Keys) && Solves(rules, heights)
    requires forall k :: 0 <= k < |items| ==> GroundedAtom(rules.Keys, items[k].atom) && WellFormedItem(items[k])
    requires ArmCost(items, heights).Finite?
    ensures DerivesArm(rules, items, runs)
    ensures ArmWeight(rules, items, runs) == ArmCost(items, heights).n
    decreases ArmCost(items, heights).n, items
  {
    runs := [];
    if items != [] {
      var last := |items| - 1;
      var before := ArmCostIsReached(rules, heights, items[..last]);
      var run := ItemCostIsReached(rules, heights, items[last]);
      runs := before + [run];
      assert runs[..last] == before;
    }
  }

  lemma {:induction false} ItemCostIsReached(rules: Rules, heights: HeightMap, item: Item) returns (run: Run)
    requires WellFormed(rules) && Closed(rules, rules.Keys) && Solves(rules, heights)
    requires GroundedAtom(rules.Keys, item.atom) && WellFormedItem(item)
    requires ItemCost(item, heights).Finite?
    ensures DerivesRun(rules, item, run)
    ensures RunWeight(rules, item, run) == ItemCost(item, heights).n
    decreases ItemCost(item, heights).n, item
  {
    if item.quantifier.lo == 0 {
      run := Run([]);
    } else {
      var node := CostIsReached(rules, heights, item.atom);
      run := Run(seq(item.quantifier.lo, _ => node));
    }
  }

  /**
   On a closed grammar a rule's height is the least weight among its derivations,
   and infinite exactly when it has none.
   */
  lemma HeightIsLeastWeight(rules: Rules, heights: HeightMap, name: string)
    requires WellFormed(rules) && Closed(rules, rules.Keys) && Solves(rules, heights) && name in rules
    ensures forall node :: Derives(rules, RuleRef(name), node) ==>
                             Le(heights[name], Finite(Weight(rules, RuleRef(name), node)))
    ensures heights[name].Finite? <==> Derivable(rules, RuleRef(name))
    ensures heights[name].Finite? ==>
              exists node ::
                    Derives(rules, RuleRef(name), node) && Weight(rules, RuleRef(name), node) == heights[name].n
  {
    forall node | Derives(rules, RuleRef(name), node)
      ensures Le(heights[name], Finite(Weight(rules, RuleRef(name), node)))
    {
      CostIsLeast(rules, heights, RuleRef(name), node);
    }
    if heights[name].Finite? {
      var node := CostIsReached(rules, heights, RuleRef(name));
      assert Derives(rules, RuleRef(name), node);
    }
  }
}
