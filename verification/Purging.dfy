/**
 A grammar with some characters taken out: its trees are exactly the original ones that
 spell none of them, so its heights decide what can still be derived without them.
 */
module Purging {
  import opened Grammars
  import opened Heights

  predicate Free(text: string, poison: set<char>) {
    forall c :: c in poison ==> c !in text
  }

  // No arm to pick, nothing to derive.
  const DEAD := Group(Alternation([]))

  function PurgeAtom(atom: Atom, poison: set<char>): Atom
    decreases atom
  {
    match atom
    case Literal(text) => if Free(text, poison) then atom else DEAD
    case CharClass(members) => if members <= poison then DEAD else CharClass(members - poison)
    case RuleRef(_) => atom
    case Group(body) => Group(PurgeAlt(body, poison))
  }

  function PurgeItem(item: Item, poison: set<char>): Item
    decreases item
  {
    Item(PurgeAtom(item.atom, poison), item.quantifier)
  }

  function PurgeArm(arm: Sequence, poison: set<char>): Sequence
    decreases arm
  {
    Sequence(seq(|arm.items|, k requires 0 <= k < |arm.items| => PurgeItem(arm.items[k], poison)))
  }

  function PurgeAlt(body: Alternation, poison: set<char>): Alternation
    decreases body
  {
    Alternation(seq(|body.arms|, k requires 0 <= k < |body.arms| => PurgeArm(body.arms[k], poison)))
  }

  function Purge(rules: Rules, poison: set<char>): Rules {
    map name | name in rules :: PurgeAlt(rules[name], poison)
  }

  // ---------- The trees that are left ----------

  lemma {:induction false} FreeNodes(nodes: seq<Node>, poison: set<char>)
    ensures Free(NodesText(nodes), poison) <==> forall k :: 0 <= k < |nodes| ==> Free(Spelling(nodes[k]), poison)
    decreases nodes
  {
    if nodes != [] {
      var front, last := nodes[..|nodes| - 1], nodes[|nodes| - 1];
      FreeNodes(front, poison);
      assert forall k :: 0 <= k < |nodes| ==> nodes[k] == if k < |front| then front[k] else last;
    }
  }

  lemma {:induction false} FreeRuns(runs: seq<Run>, poison: set<char>)
    ensures Free(RunsText(runs), poison) <==> forall k :: 0 <= k < |runs| ==> Free(NodesText(runs[k].nodes), poison)
    decreases runs
  {
    if runs != [] {
      var front, last := runs[..|runs| - 1], runs[|runs| - 1];
      FreeRuns(front, poison);
      assert forall k :: 0 <= k < |runs| ==> runs[k] == if k < |front| then front[k] else last;
    }
  }

  /** The purged grammar derives exactly the trees of the grammar whose text is free of the poison. */
  lemma {:induction false} PurgedDerives(rules: Rules, poison: set<char>, atom: Atom, node: Node)
    ensures Derives(Purge(rules, poison), PurgeAtom(atom, poison), node)
       <==> Derives(rules, atom, node) && Free(Spelling(node), poison)
    decreases node
  {
    match atom {
      case Literal(_) =>
      case CharClass(members) =>
        if node.Leaf? && |node.text| == 1 {
          assert node.text == [node.text[0]];
        }
      case RuleRef(name) =>
        if node.RuleNode? && name in rules {
          PurgedPick(rules, poison, rules[name], node.pick);
        }
      case Group(body) =>
        if node.GroupNode? {
          PurgedPick(rules, poison, body, node.pick);
        }
    }
  }

  lemma {:induction false} PurgedPick(rules: Rules, poison: set<char>, body: Alternation, pick: Pick)
    ensures DerivesPick(Purge(rules, poison), PurgeAlt(body, poison), pick)
       <==> DerivesPick(rules, body, pick) && Free(RunsText(pick.runs), poison)
    decreases pick
  {
    if pick.arm < |body.arms| {
      PurgedArm(rules, poison, body.arms[pick.arm], pick.runs);
    }
  }

  lemma {:induction false} PurgedArm(rules: Rules, poison: set<char>, arm: Sequence, runs: seq<Run>)
    ensures DerivesArm(Purge(rules, poison), PurgeArm(arm, poison).items, runs)
       <==> DerivesArm(rules, arm.items, runs) && Free(RunsText(runs), poison)
    decreases runs
  {
    hide Purge, PurgeItem, Free, RunsText, NodesText, DerivesRun;
    FreeRuns(runs, poison);
    if |runs| == |arm.items| {
      forall k | 0 <= k < |runs|
        ensures DerivesRun(Purge(rules, poison), PurgeArm(arm, poison).items[k], runs[k])
           <==> DerivesRun(rules, arm.items[k], runs[k]) && Free(NodesText(runs[k].nodes), poison)
      {
        PurgedRun(rules, poison, arm.items[k], runs[k]);
      }
    }
  }

  lemma {:induction false} PurgedRun(rules: Rules, poison: set<char>, item: Item, run: Run)
    ensures DerivesRun(Purge(rules, poison), PurgeItem(item, poison), run)
       <==> DerivesRun(rules, item, run) && Free(NodesText(run.nodes), poison)
    decreases run
  {
    hide Purge, PurgeAtom, Free, Spelling, NodesText, Derives;
    FreeNodes(run.nodes, poison);
    forall k | 0 <= k < |run.nodes|
      ensures Derives(Purge(rules, poison), PurgeAtom(item.atom, poison), run.nodes[k])
         <==> Derives(rules, item.atom, run.nodes[k]) && Free(Spelling(run.nodes[k]), poison)
    {
      PurgedDerives(rules, poison, item.atom, run.nodes[k]);
    }
  }

  // ---------- Heights decide what is left ----------

  lemma {:induction false} PurgeKeepsGrounded(names: set<string>, body: Alternation, poison: set<char>)
    requires GroundedAlt(names, body)
    ensures GroundedAlt(names, PurgeAlt(body, poison))
    decreases body
  {
    forall a | 0 <= a < |body.arms| ensures GroundedArm(names, PurgeArm(body.arms[a], poison)) {
      PurgeKeepsGroundedArm(names, body.arms[a], poison);
    }
  }

  lemma {:induction false} PurgeKeepsGroundedArm(names: set<string>, arm: Sequence, poison: set<char>)
    requires GroundedArm(names, arm)
    ensures GroundedArm(names, PurgeArm(arm, poison))
    decreases arm
  {
    forall i | 0 <= i < |arm.items| ensures GroundedAtom(names, PurgeAtom(arm.items[i].atom, poison)) {
      var atom := arm.items[i].atom;
      assert GroundedAtom(names, atom);
      match atom {
        case CharClass(members) =>
          if !(members <= poison) {
            var c :| c in members && c !in poison;
            assert c in members - poison;
          }
        case Group(body) => PurgeKeepsGrounded(names, body, poison);
        case _ =>
      }
    }
  }

  lemma {:induction false} PurgeKeepsWellFormed(body: Alternation, poison: set<char>)
    requires WellFormedAlt(body)
    ensures WellFormedAlt(PurgeAlt(body, poison))
    decreases body
  {
    forall a | 0 <= a < |body.arms| ensures WellFormedArm(PurgeArm(body.arms[a], poison)) {
      assert WellFormedArm(body.arms[a]);
      PurgeKeepsWellFormedArm(body.arms[a], poison);
    }
  }

  lemma {:induction false} PurgeKeepsWellFormedArm(arm: Sequence, poison: set<char>)
    requires WellFormedArm(arm)
    ensures WellFormedArm(PurgeArm(arm, poison))
    decreases arm
  {
    forall i | 0 <= i < |arm.items| ensures WellFormedItem(PurgeItem(arm.items[i], poison)) {
      assert WellFormedItem(arm.items[i]);
      if arm.items[i].atom.Group? {
        PurgeKeepsWellFormed(arm.items[i].atom.body, poison);
      }
    }
  }

  lemma PurgeKeepsClosed(rules: Rules, poison: set<char>)
    requires WellFormed(rules) && Closed(rules, rules.Keys)
    ensures WellFormed(Purge(rules, poison)) && Closed(Purge(rules, poison), Purge(rules, poison).Keys)
  {
    assert Purge(rules, poison).Keys == rules.Keys;
    forall name | name in rules
      ensures WellFormedAlt(PurgeAlt(rules[name], poison)) && GroundedAlt(rules.Keys, PurgeAlt(rules[name], poison))
    {
      PurgeKeepsWellFormed(rules[name], poison);
      PurgeKeepsGrounded(rules.Keys, rules[name], poison);
    }
  }

  /** An arm derives something free of the poison exactly when its cost over the purged grammar's heights is finite. */
  lemma FreeArmIsFinite(rules: Rules, poison: set<char>, heights: HeightMap, name: string, a: nat)
    requires WellFormed(rules) && Closed(rules, rules.Keys) && Solves(Purge(rules, poison), heights)
    requires name in rules && a < |rules[name].arms|
    ensures ArmCost(PurgeArm(rules[name].arms[a], poison).items, heights).Finite?
       <==> exists runs :: DerivesArm(rules, rules[name].arms[a].items, runs) && Free(RunsText(runs), poison)
  {
    var arm := rules[name].arms[a];
    var purged := Purge(rules, poison);
    var items := PurgeArm(arm, poison).items;
    if ArmCost(items, heights).Finite? {
      PurgeKeepsClosed(rules, poison);
      ItemsAreSound(purged, name, a);
      assert purged[name].arms[a].items == items;
      var runs := ArmCostIsReached(purged, heights, items);
      PurgedArm(rules, poison, arm, runs);
    }
    if runs :| DerivesArm(rules, arm.items, runs) && Free(RunsText(runs), poison) {
      PurgedArm(rules, poison, arm, runs);
      ArmCostIsLeast(purged, heights, items, runs);
    }
  }

  lemma ItemsAreSound(rules: Rules, name: string, a: nat)
    requires WellFormed(rules) && Closed(rules, rules.Keys) && name in rules && a < |rules[name].arms|
    ensures var items := rules[name].arms[a].items;
            forall k :: 0 <= k < |items| ==> GroundedAtom(rules.Keys, items[k].atom) && WellFormedItem(items[k])
  {
    assert GroundedArm(rules.Keys, rules[name].arms[a]) && WellFormedArm(rules[name].arms[a]);
  }
}
