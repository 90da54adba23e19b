/**
 The free random walk over a grammar.

 Random draws are nondeterministic choices.  The termination measure is the depth
 budget while it lasts and the rule heights once it is spent.
 */
module Generator {
  import opened Wrappers
  import opened Grammars
  import opened Heights
  import opened Completing

  datatype Refusal = UndefinedRule(name: string) | NoArms | LoopsForever | EmptyClass

  // ---------- Repetition counts ----------

  /** The largest count a variable quantifier is rolled to. */
  function Top(q: Quantifier): nat {
    if q.hi.None? || q.lo + 2 <= q.hi.value then q.lo + 2 else q.hi.value
  }

  /**
   The count rolled: a fixed one as it is; else the lower bound, or one past it and at most
   two, every such count the quantifier admits coming of some draw.
   */
  method PickCount(q: Quantifier, low: bool, draw: nat) returns (count: nat)
    requires q.WellFormed()
    ensures q.Admits(count) && count <= q.lo + 2
    ensures low || q.hi == Some(q.lo) ==> count == q.lo
    ensures !low && q.hi != Some(q.lo) ==> count > q.lo
    ensures forall n :: !low && n == q.lo + 1 + draw && n <= q.lo + 2 && q.Admits(n) ==> count == n
  {
    if q.hi == Some(q.lo) || low {
      return q.lo;
    }
    count := q.lo + 1 + draw % (Top(q) - q.lo);
  }

  // ---------- The arms a walk may choose ----------

  function ArmsWithin(arms: seq<Sequence>, heights: HeightMap, cap: Cost): (open: seq<Sequence>)
    ensures forall arm :: arm in open <==>
                          arm in arms && ArmCost(arm.items, heights).Finite? && Le(ArmCost(arm.items, heights), cap)
  {
    if arms == [] then []
    else
      var cost := ArmCost(arms[0].items, heights);
      var rest := ArmsWithin(arms[1..], heights, cap);
      assert forall arm :: arm in arms <==> arm == arms[0] || arm in arms[1..];
      if Le(cost, cap) && cost.Finite? then [arms[0]] + rest else rest
  }

  /** Terminating arms, and only the minimal ones once the depth is spent. */
  function OpenArms(heights: HeightMap, body: Alternation, depth: int): (open: Result<seq<Sequence>, Refusal>)
    ensures open.Ok? <==> AltCost(body, heights).Finite?
    ensures open.Ok? ==> open.value != []
    ensures open.Ok? ==> forall arm :: arm in open.value <==>
        arm in body.arms && ArmCost(arm.items, heights).Finite?
        && (depth <= 0 ==> ArmCost(arm.items, heights) == AltCost(body, heights))
    ensures open.Err? ==> open.error == if body.arms == [] then NoArms else LoopsForever
  {
    if body.arms == [] then Err(NoArms)
    else
      var floor := CheapestArm(body.arms, heights);
      if floor.Infinite? then Err(LoopsForever)
      else
        var open := ArmsWithin(body.arms, heights, if depth > 0 then Infinite else floor);
        MinimalArmIsOpen(body.arms, heights);
        Ok(open)
  }

  lemma MinimalArmIsOpen(arms: seq<Sequence>, heights: HeightMap)
    requires arms != []
    ensures exists arm :: arm in arms && ArmCost(arm.items, heights) == CheapestArm(arms, heights)
    ensures forall arm :: arm in arms ==> Le(CheapestArm(arms, heights), ArmCost(arm.items, heights))
  {
    var k := CheapestArmExists(arms, heights);
    assert arms[k] in arms;
    forall arm | arm in arms
      ensures Le(CheapestArm(arms, heights), ArmCost(arm.items, heights))
    {
      var j :| 0 <= j < |arms| && arms[j] == arm;
      AltBelowArm(arms, heights, j);
    }
  }

  // ---------- When the walk cannot refuse ----------

  /**
   `names` are closed under reference, each is productive, and no alternation
   among them is without arms.
   */
  ghost predicate Productive(rules: Rules, heights: HeightMap, names: set<string>) {
    && Closed(rules, names)
    && names <= heights.Keys
    && forall name :: name in names ==> heights[name].Finite? && ArmedAlt(rules[name])
  }

  lemma {:induction false} ArmCostFinite(items: seq<Item>, heights: HeightMap)
    requires forall k :: 0 <= k < |items| ==> ItemCost(items[k], heights).Finite?
    ensures ArmCost(items, heights).Finite?
  {
    if items != [] {
      ArmCostFinite(items[..|items| - 1], heights);
    }
  }

  /** Over productive names an alternation with arms has an arm that terminates. */
  lemma {:induction false} ArmedIsFinite(names: set<string>, body: Alternation, heights: HeightMap)
    requires GroundedAlt(names, body) && ArmedAlt(body)
    requires forall name :: name in names ==> name in heights && heights[name].Finite?
    ensures AltCost(body, heights).Finite?
    decreases body
  {
    var arm := body.arms[0];
    assert GroundedArm(names, arm) && ArmedArm(arm);
    forall k | 0 <= k < |arm.items|
      ensures ItemCost(arm.items[k], heights).Finite?
    {
      var item := arm.items[k];
      assert GroundedAtom(names, item.atom) && ArmedAtom(item.atom);
      if item.atom.Group? {
        ArmedIsFinite(names, item.atom.body, heights);
      }
    }
    ArmCostFinite(arm.items, heights);
    AltBelowArm(body.arms, heights, 0);
  }

  // ---------- The walk ----------

  function Spend(depth: int): nat {
    if depth > 0 then depth else 0
  }

  /** The descending part of the measure: heights count once the depth is spent. */
  function Descent(depth: int, cost: Cost, otherwise: nat): nat {
    if depth <= 0 && cost.Finite? then cost.n else otherwise
  }

  function HeightOf(heights: HeightMap, name: string): Cost {
    if name in heights then heights[name] else Finite(0)
  }

  /** What the walk at `depth` asks of an atom to be sure of expanding it. */
  ghost predicate CannotRefuse(rules: Rules, heights: HeightMap, names: set<string>, depth: int) {
    && Closed(rules, names)
    && (depth > 0 ==> Productive(rules, heights, names))
  }

  /** The walk at `depth` is sure to expand the rule called `name`. */
  ghost predicate Assured(rules: Rules, heights: HeightMap, names: set<string>, depth: int, name: string) {
    && CannotRefuse(rules, heights, names, depth)
    && name in names && name in heights && heights[name].Finite?
  }

  /** The refusals of a walk that terminates: something it came to is missing. */
  predicate Missing(rules: Rules, refusal: Refusal) {
    refusal.EmptyClass? || (refusal.UndefinedRule? && refusal.name !in rules)
  }

  method Run(rules: Rules, heights: HeightMap, depth: int, name: string, ghost names: set<string>)
    returns (r: Result<string, Refusal>)
    requires WellFormed(rules) && Solves(rules, heights)
    ensures r.Ok? ==> InLanguage(rules, name, r.value)
    ensures name !in rules ==> r == Err(UndefinedRule(name))
    ensures name in rules && heights[name].Infinite? ==> r == Err(if rules[name].arms == [] then NoArms else LoopsForever)
    ensures Assured(rules, heights, names, depth, name) ==> r.Ok?
    ensures r.Err? ==> Missing(rules, r.error) || r.error.NoArms? || r.error.LoopsForever?
    ensures r.Err? && depth <= 0 && (name in rules ==> heights[name].Finite?) ==> Missing(rules, r.error)
    decreases Spend(depth), Descent(depth, HeightOf(heights, name), 1), 0
  {
    if name !in rules {
      return Err(UndefinedRule(name));
    }
    assert heights[name] == Demand(rules, heights, name);
    r := Expand(rules, heights, depth, rules[name], names);
    if r.Ok? {
      PickOfRule(rules, name, r.value);
    }
  }

  function Drawn(arms: seq<Sequence>, draw: nat): (arm: Sequence)
    requires arms != []
    ensures arm in arms && (draw < |arms| ==> arm == arms[draw])
  {
    arms[draw % |arms|]
  }

  /** The arm drawn of those a walk may choose; any of them is, for some draw. */
  method ChooseArm(heights: HeightMap, body: Alternation, depth: int, draw: nat) returns (r: Result<nat, Refusal>)
    ensures r.Ok? <==> AltCost(body, heights).Finite?
    ensures r.Ok? ==> r.value < |body.arms| && ArmCost(body.arms[r.value].items, heights).Finite?
    ensures r.Ok? && depth <= 0 ==> ArmCost(body.arms[r.value].items, heights) == AltCost(body, heights)
    ensures r.Ok? ==>
              var open := OpenArms(heights, body, depth).value;
              body.arms[r.value] in open && (draw < |open| ==> body.arms[r.value] == open[draw])
    ensures r.Err? ==> r.error == if body.arms == [] then NoArms else LoopsForever
  {
    hide OpenArms, ArmCost, AltCost;
    var open := OpenArms(heights, body, depth);
    if open.Err? {
      return Err(open.error);
    }
    var arm := Drawn(open.value, draw);
    var pick: nat :| pick < |body.arms| && body.arms[pick] == arm;
    r := Ok(pick);
  }

  /** Expand a random open arm of `body`. */
  method Expand(rules: Rules, heights: HeightMap, depth: int, body: Alternation, ghost names: set<string>)
    returns (r: Result<string, Refusal>)
    requires WellFormed(rules) && Solves(rules, heights) && WellFormedAlt(body)
    ensures r.Ok? ==> PickSpells(rules, body, r.value)
    ensures AltCost(body, heights).Infinite? ==> r == Err(if body.arms == [] then NoArms else LoopsForever)
    ensures CannotRefuse(rules, heights, names, depth) && GroundedAlt(names, body) ==>
              (depth > 0 ==> ArmedAlt(body)) ==> AltCost(body, heights).Finite? ==> r.Ok?
    ensures r.Err? ==> Missing(rules, r.error) || r.error.NoArms? || r.error.LoopsForever?
    ensures r.Err? && depth <= 0 && AltCost(body, heights).Finite? ==> Missing(rules, r.error)
    decreases Spend(depth), Descent(depth, AltCost(body, heights), 0), 1, body
  {
    hide DerivesArm, DerivesRun, RunsText, NodesText, ArmCost, ItemCost, AltCost, WellFormedAlt, WellFormedItem, GroundedAlt,
         GroundedAtom, ArmedAlt, ArmedAtom, Missing, CannotRefuse, Solves, WellFormed;
    var draw: nat := *;
    var choice := ChooseArm(heights, body, depth, draw);
    if choice.Err? {
      return Err(choice.error);
    }
    var pick := choice.value;
    var arm := body.arms[pick];
    var text := "";
    ghost var runs: seq<Grammars.Run> := [];
    NothingYet(rules, arm.items);
    var k := 0;
    while k < |arm.items|
      invariant 0 <= k <= |arm.items|
      invariant DerivesArm(rules, arm.items[..k], runs) && RunsText(runs) == text
    {
      var item := arm.items[k];
      ItemOfBody(names, body, pick, k, heights);
      var piece := ExpandItem(rules, heights, depth, item, names);
      if piece.Err? {
        return Err(piece.error);
      }
      ghost var run :| DerivesRun(rules, item, run) && NodesText(run.nodes) == piece.value;
      ArmExtends(rules, arm.items, k, runs, run);
      runs := runs + [run];
      text := text + piece.value;
      k := k + 1;
    }
    assert arm.items[..k] == arm.items;
    PickIsSpelled(rules, body, pick, runs);
    r := Ok(text);
  }

  // What holds of a body holds of each of its items, which costs no more than its arm.
  lemma ItemOfBody(names: set<string>, body: Alternation, a: nat, k: nat, heights: HeightMap)
    requires WellFormedAlt(body) && a < |body.arms| && k < |body.arms[a].items|
    ensures var item := body.arms[a].items[k];
            && WellFormedItem(item) && Le(ItemCost(item, heights), ArmCost(body.arms[a].items, heights))
            && (GroundedAlt(names, body) ==> GroundedAtom(names, item.atom))
            && (ArmedAlt(body) ==> ArmedAtom(item.atom))
  {
    var arm := body.arms[a];
    assert WellFormedArm(arm);
    assert GroundedAlt(names, body) ==> GroundedArm(names, arm);
    assert ArmedAlt(body) ==> ArmedArm(arm);
    ItemWithinArm(arm.items, heights, k);
  }

  lemma NothingYet(rules: Rules, items: seq<Item>)
    ensures DerivesArm(rules, items[..0], []) && RunsText([]) == ""
  {
  }

  lemma PickIsSpelled(rules: Rules, body: Alternation, pick: nat, runs: seq<Grammars.Run>)
    requires pick < |body.arms| && DerivesArm(rules, body.arms[pick].items, runs)
    ensures PickSpells(rules, body, RunsText(runs))
  {
    assert DerivesPick(rules, body, Pick(pick, runs));
  }

  /** Expand one item under its quantifier. */
  method ExpandItem(rules: Rules, heights: HeightMap, depth: int, item: Item, ghost names: set<string>)
    returns (r: Result<string, Refusal>)
    requires WellFormed(rules) && Solves(rules, heights) && WellFormedItem(item)
    requires ItemCost(item, heights).Finite?
    ensures r.Ok? ==> RunSpells(rules, item, r.value)
    ensures CannotRefuse(rules, heights, names, depth) && GroundedAtom(names, item.atom) ==>
              (depth > 0 ==> ArmedAtom(item.atom)) ==> r.Ok?
    ensures r.Err? ==> Missing(rules, r.error) || r.error.NoArms? || r.error.LoopsForever?
    ensures r.Err? && depth <= 0 ==> Missing(rules, r.error)
    decreases Spend(depth), Descent(depth, ItemCost(item, heights), 0), 1, item
  {
    var count: nat;
    if depth <= 0 && (item.atom.RuleRef? || item.atom.Group?) {
      count := item.quantifier.lo;
    } else {
      var low: bool, draw: nat := *, *;
      count := PickCount(item.quantifier, low, draw);
    }
    var text := "";
    ghost var nodes: seq<Node> := [];
    var k := 0;
    while k < count
      invariant 0 <= k <= count && |nodes| == k && NodesText(nodes) == text
      invariant forall j :: 0 <= j < k ==> Derives(rules, item.atom, nodes[j])
    {
      var piece := ExpandAtom(rules, heights, depth, item.atom, names);
      if piece.Err? {
        return Err(piece.error);
      }
      ghost var node :| Derives(rules, item.atom, node) && Spelling(node) == piece.value;
      NodesTextAppend(nodes, node);
      nodes := nodes + [node];
      text := text + piece.value;
      k := k + 1;
    }
    assert DerivesRun(rules, item, Grammars.Run(nodes));
    r := Ok(text);
  }

  lemma LeafSpells(rules: Rules, atom: Atom, text: string)
    requires atom == Literal(text) || (atom.CharClass? && |text| == 1 && text[0] in atom.members)
    ensures Spells(rules, atom, text)
  {
    assert Derives(rules, atom, Leaf(text)) && Spelling(Leaf(text)) == text;
  }

  /** One occurrence of an atom. */
  method ExpandAtom(rules: Rules, heights: HeightMap, depth: int, atom: Atom, ghost names: set<string>)
    returns (r: Result<string, Refusal>)
    requires WellFormed(rules) && Solves(rules, heights) && (atom.Group? ==> WellFormedAlt(atom.body))
    requires depth <= 0 ==> AtomCost(atom, heights).Finite?
    ensures r.Ok? ==> Spells(rules, atom, r.value)
    ensures CannotRefuse(rules, heights, names, depth) && GroundedAtom(names, atom) ==>
              (depth > 0 ==> ArmedAtom(atom)) ==> r.Ok?
    ensures r.Err? ==> Missing(rules, r.error) || r.error.NoArms? || r.error.LoopsForever?
    ensures r.Err? && depth <= 0 ==> Missing(rules, r.error)
    decreases Spend(depth), Descent(depth, AtomCost(atom, heights), 0), 1, atom
  {
    match atom {
      case Literal(literal) =>
        LeafSpells(rules, atom, literal);
        r := Ok(literal);
      case CharClass(members) =>
        if members == {} {
          r := Err(EmptyClass);
        } else {
          var c :| c in members;
          LeafSpells(rules, atom, [c]);
          r := Ok([c]);
        }
      case RuleRef(name) =>
        r := Run(rules, heights, depth - 1, name, names);
      case Group(body) =>
        if depth > 0 && ArmedAlt(body) && GroundedAlt(names, body) && Productive(rules, heights, names) {
          ArmedIsFinite(names, body, heights);
        }
        r := Expand(rules, heights, depth, body, names);
        if r.Ok? {
          PickOfGroup(rules, body, r.value);
        }
    }
  }

  /**
   A random string of the named rule: it always ends, what it returns is in the
   rule's language, and it cannot refuse a rule among productive ones.  It refuses a rule
   at the start exactly when the completed grammar derives nothing from it; with the depth
   spent, any other refusal names what is missing.
   */
  method Generate(rules: Rules, name: string, depth: int) returns (r: Result<string, Refusal>)
    requires WellFormed(rules)
    ensures r.Ok? ==> InLanguage(rules, name, r.value)
    ensures forall heights, names :: Solves(rules, heights) && Assured(rules, heights, names, depth, name) ==> r.Ok?
    ensures name !in rules ==> r == Err(UndefinedRule(name))
    ensures name in rules && !Derivable(Complete(rules), RuleRef(name)) ==>
              r == Err(if rules[name].arms == [] then NoArms else LoopsForever)
    ensures r.Err? ==> Missing(rules, r.error) || r.error.NoArms? || r.error.LoopsForever?
    ensures r.Err? && depth <= 0 && (name in rules ==> Derivable(Complete(rules), RuleRef(name))) ==> Missing(rules, r.error)
  {
    var heights := RuleHeights(rules);
    ghost var names := {};
    if known :| Assured(rules, heights, known, depth, name) {
      names := known;
    }
    if name in rules {
      HeightsOfAnyGrammar(rules, heights, name);
    }
    r := Run(rules, heights, depth, name, names);
    forall other, known | Solves(rules, other) && Assured(rules, other, known, depth, name)
      ensures r.Ok?
    {
      SolutionUnique(rules, heights, other);
    }
  }
}
