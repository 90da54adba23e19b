/**
 Heights on any grammar: an undefined reference and an empty class cost nothing, so that
 a walk enters them and refuses there.  The heights are those of the grammar completed
 with an empty literal in their place.
 */
module Completing {
  import opened Grammars
  import opened Heights

  function CompleteAtom(names: set<string>, atom: Atom): Atom
    decreases atom
  {
    match atom
    case Literal(_) => atom
    case CharClass(members) => if members == {} then Literal("") else atom
    case RuleRef(name) => if name in names then atom else Literal("")
    case Group(body) => Group(CompleteAlt(names, body))
  }

  function CompleteItem(names: set<string>, item: Item): Item
    decreases item
  {
    Item(CompleteAtom(names, item.atom), item.quantifier)
  }

  function CompleteArm(names: set<string>, arm: Sequence): Sequence
    decreases arm
  {
    Sequence(seq(|arm.items|, k requires 0 <= k < |arm.items| => CompleteItem(names, arm.items[k])))
  }

  function CompleteAlt(names: set<string>, body: Alternation): Alternation
    decreases body
  {
    Alternation(seq(|body.arms|, k requires 0 <= k < |body.arms| => CompleteArm(names, body.arms[k])))
  }

  function Complete(rules: Rules): Rules {
    map name | name in rules :: CompleteAlt(rules.Keys, rules[name])
  }

  // ---------- The completed grammar is closed ----------

  lemma {:induction false} CompleteIsGrounded(names: set<string>, body: Alternation)
    ensures GroundedAlt(names, CompleteAlt(names, body))
    decreases body
  {
    forall a | 0 <= a < |body.arms| ensures GroundedArm(names, CompleteArm(names, body.arms[a])) {
      CompleteArmIsGrounded(names, body.arms[a]);
    }
  }

  lemma {:induction false} CompleteArmIsGrounded(names: set<string>, arm: Sequence)
    ensures GroundedArm(names, CompleteArm(names, arm))
    decreases arm
  {
    forall i | 0 <= i < |arm.items| ensures GroundedAtom(names, CompleteAtom(names, arm.items[i].atom)) {
      if arm.items[i].atom.Group? {
        CompleteIsGrounded(names, arm.items[i].atom.body);
      }
    }
  }

  lemma {:induction false} CompleteIsWellFormed(names: set<string>, body: Alternation)
    requires WellFormedAlt(body)
    ensures WellFormedAlt(CompleteAlt(names, body))
    decreases body
  {
    forall a | 0 <= a < |body.arms| ensures WellFormedArm(CompleteArm(names, body.arms[a])) {
      assert WellFormedArm(body.arms[a]);
      CompleteArmIsWellFormed(names, body.arms[a]);
    }
  }

  lemma {:induction false} CompleteArmIsWellFormed(names: set<string>, arm: Sequence)
    requires WellFormedArm(arm)
    ensures WellFormedArm(CompleteArm(names, arm))
    decreases arm
  {
    forall i | 0 <= i < |arm.items| ensures WellFormedItem(CompleteItem(names, arm.items[i])) {
      assert WellFormedItem(arm.items[i]);
      if arm.items[i].atom.Group? {
        CompleteIsWellFormed(names, arm.items[i].atom.body);
      }
    }
  }

  lemma CompleteIsClosed(rules: Rules)
    requires WellFormed(rules)
    ensures WellFormed(Complete(rules)) && Closed(Complete(rules), Complete(rules).Keys)
  {
    assert Complete(rules).Keys == rules.Keys;
    forall name | name in rules
      ensures WellFormedAlt(CompleteAlt(rules.Keys, rules[name])) && GroundedAlt(rules.Keys, CompleteAlt(rules.Keys, rules[name]))
    {
      CompleteIsWellFormed(rules.Keys, rules[name]);
      CompleteIsGrounded(rules.Keys, rules[name]);
    }
  }

  // ---------- And costs the same ----------

  lemma {:induction false} CompleteCostsSame(names: set<string>, atom: Atom, heights: HeightMap)
    requires heights.Keys == names
    ensures AtomCost(CompleteAtom(names, atom), heights) == AtomCost(atom, heights)
    decreases atom
  {
    if atom.Group? {
      CompleteAltCostsSame(names, atom.body.arms, heights, |atom.body.arms|);
      assert atom.body.arms[..|atom.body.arms|] == atom.body.arms;
      assert CompleteAlt(names, atom.body).arms[..|atom.body.arms|] == CompleteAlt(names, atom.body).arms;
    }
  }

  lemma {:induction false} CompleteAltCostsSame(names: set<string>, arms: seq<Sequence>, heights: HeightMap, n: nat)
    requires heights.Keys == names && n <= |arms|
    ensures CheapestArm(CompleteAlt(names, Alternation(arms)).arms[..n], heights) == CheapestArm(arms[..n], heights)
    decreases arms, n
  {
    if n > 0 {
      var complete := CompleteAlt(names, Alternation(arms)).arms;
      CompleteAltCostsSame(names, arms, heights, n - 1);
      CompleteArmCostsSame(names, arms[n - 1].items, heights, |arms[n - 1].items|);
      var items, completed := arms[n - 1].items, CompleteArm(names, arms[n - 1]).items;
      assert arms[n - 1] == Sequence(items) && complete[n - 1].items == completed;
      assert items[..|items|] == items && completed[..|items|] == completed;
      assert arms[..n][..n - 1] == arms[..n - 1] && complete[..n][..n - 1] == complete[..n - 1];
    }
  }

  lemma {:induction false} CompleteArmCostsSame(names: set<string>, items: seq<Item>, heights: HeightMap, n: nat)
    requires heights.Keys == names && n <= |items|
    ensures ArmCost(CompleteArm(names, Sequence(items)).items[..n], heights) == ArmCost(items[..n], heights)
    decreases items, n
  {
    if n > 0 {
      var complete := CompleteArm(names, Sequence(items)).items;
      CompleteArmCostsSame(names, items, heights, n - 1);
      CompleteCostsSame(names, items[n - 1].atom, heights);
      assert items[..n][..n - 1] == items[..n - 1] && complete[..n][..n - 1] == complete[..n - 1];
    }
  }

  /** A grammar and its completion have the same heights. */
  lemma CompleteSolves(rules: Rules, heights: HeightMap)
    ensures Solves(Complete(rules), heights) <==> Solves(rules, heights)
  {
    if heights.Keys == rules.Keys {
      forall name | name in rules ensures Demand(Complete(rules), heights, name) == Demand(rules, heights, name) {
        CompleteCostsSame(rules.Keys, Group(rules[name]), heights);
      }
    }
  }

  /**
   On every grammar, a rule's height is the least weight of a tree of the completed
   grammar, and finite exactly when the completed grammar derives something from the rule.
   */
  lemma HeightsOfAnyGrammar(rules: Rules, heights: HeightMap, name: string)
    requires WellFormed(rules) && Solves(rules, heights) && name in rules
    ensures heights[name].Finite? <==> Derivable(Complete(rules), RuleRef(name))
    ensures forall node :: Derives(Complete(rules), RuleRef(name), node) ==>
                             Le(heights[name], Finite(Weight(Complete(rules), RuleRef(name), node)))
    ensures heights[name].Finite? ==>
              exists node :: Derives(Complete(rules), RuleRef(name), node)
                             && Weight(Complete(rules), RuleRef(name), node) == heights[name].n
  {
    CompleteIsClosed(rules);
    CompleteSolves(rules, heights);
    HeightIsLeastWeight(Complete(rules), heights, name);
  }
}
