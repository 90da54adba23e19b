/**
 Which references of a grammar come to anything: those some derivation tree takes.
 */
module Liveness {
  import opened Wrappers
  import opened Grammars
  import opened Heights
  import opened Reachability
  import opened Listings

  /** The arm derives something. */
  ghost predicate LiveArm(rules: Rules, items: seq<Item>) {
    exists runs :: DerivesArm(rules, items, runs)
  }

  /** The item can occur. */
  ghost predicate LiveItem(rules: Rules, item: Item) {
    exists run :: DerivesRun(rules, item, run) && run.nodes != []
  }

  /** The rules some tree of the body refers to, its groups' interiors included. */
  ghost function LiveRefs(rules: Rules, body: Alternation): set<string>
    decreases body
  {
    set a, name | 0 <= a < |body.arms| && LiveArm(rules, body.arms[a].items) && name in ArmLiveRefs(rules, body.arms[a]) :: name
  }

  ghost function ArmLiveRefs(rules: Rules, arm: Sequence): set<string>
    decreases arm
  {
    set i, name | 0 <= i < |arm.items| && LiveItem(rules, arm.items[i]) && name in AtomLiveRefs(rules, arm.items[i].atom) :: name
  }

  ghost function AtomLiveRefs(rules: Rules, atom: Atom): set<string>
    decreases atom
  {
    match atom
    case RuleRef(name) => {name}
    case Group(body) => LiveRefs(rules, body)
    case _ => {}
  }

  /** What each rule's trees refer to. */
  ghost function LiveGraph(rules: Rules): Graph {
    map name | name in rules :: Listed(LiveRefs(rules, rules[name]))
  }

  lemma LiveNames(rules: Rules, a: string, b: string)
    ensures Names(LiveGraph(rules), a, b) <==> a in rules && b in LiveRefs(rules, rules[a])
  {
    if a in rules {
      assert Elements(Listed(LiveRefs(rules, rules[a]))) == LiveRefs(rules, rules[a]);
    }
  }

  // ---------- Live references are references ----------

  lemma {:induction false} LiveRefsAreRefs(rules: Rules, body: Alternation)
    ensures LiveRefs(rules, body) <= AltRefs(body)
    decreases body
  {
    forall a, name | 0 <= a < |body.arms| && name in ArmLiveRefs(rules, body.arms[a])
      ensures name in ArmRefs(body.arms[a])
    {
      var arm := body.arms[a];
      var i :| 0 <= i < |arm.items| && LiveItem(rules, arm.items[i]) && name in AtomLiveRefs(rules, arm.items[i].atom);
      if arm.items[i].atom.Group? {
        LiveRefsAreRefs(rules, arm.items[i].atom.body);
      }
      assert name in AtomRefs(arm.items[i].atom);
    }
  }

  /** Nothing is reached through live references that the grammar's references do not reach. */
  lemma LiveReachesReach(rules: Rules, graph: Graph, a: string, b: string)
    requires IsGraphOf(graph, rules) && Reaches(LiveGraph(rules), a, b)
    ensures Reaches(graph, a, b)
  {
    var live := LiveGraph(rules);
    var path :| IsPath(live, path) && path[0] == a && path[|path| - 1] == b;
    forall k | 0 <= k < |path| - 1 ensures Names(graph, path[k], path[k + 1]) {
      assert Names(live, path[k], path[k + 1]);
      LiveNames(rules, path[k], path[k + 1]);
      LiveRefsAreRefs(rules, rules[path[k]]);
      assert path[k + 1] in Elements(graph[path[k]]);
    }
    assert IsPath(graph, path);
  }

  // ---------- Heights decide what is live ----------

  /** On a closed grammar an arm is live exactly when it costs finitely much. */
  lemma LiveArmIsFinite(rules: Rules, heights: HeightMap, items: seq<Item>)
    requires WellFormed(rules) && Closed(rules, rules.Keys) && Solves(rules, heights)
    requires forall k :: 0 <= k < |items| ==> GroundedAtom(rules.Keys, items[k].atom) && WellFormedItem(items[k])
    ensures LiveArm(rules, items) <==> ArmCost(items, heights).Finite?
  {
    if ArmCost(items, heights).Finite? {
      var runs := ArmCostIsReached(rules, heights, items);
    }
    if runs :| DerivesArm(rules, items, runs) {
      ArmCostIsLeast(rules, heights, items, runs);
    }
  }

  /** And an item when its quantifier lets it occur and its atom costs finitely much. */
  lemma LiveItemIsFinite(rules: Rules, heights: HeightMap, item: Item)
    requires WellFormed(rules) && Closed(rules, rules.Keys) && Solves(rules, heights)
    requires GroundedAtom(rules.Keys, item.atom) && WellFormedItem(item)
    ensures LiveItem(rules, item) <==> item.quantifier.hi != Some(0) && AtomCost(item.atom, heights).Finite?
  {
    if item.quantifier.hi != Some(0) && AtomCost(item.atom, heights).Finite? {
      var node := CostIsReached(rules, heights, item.atom);
      var run := Run(seq(if item.quantifier.lo == 0 then 1 else item.quantifier.lo, _ => node));
      assert DerivesRun(rules, item, run) && run.nodes[0] == node;
    }
    if run :| DerivesRun(rules, item, run) && run.nodes != [] {
      assert Derives(rules, item.atom, run.nodes[0]);
      CostIsLeast(rules, heights, item.atom, run.nodes[0]);
    }
  }
}
