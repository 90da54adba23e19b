/**
 The optional-nullable lift: an optional reference to a rule that derives the
 empty string becomes a required one.
 */
module Lift {
  import opened Grammars
  import opened Reachability
  import opened Listings

  // ---------- Nullability ----------

  predicate NullableAtom(known: set<string>, atom: Atom)
    decreases atom
  {
    match atom
    case Literal(text) => text == ""
    case CharClass(_) => false
    case RuleRef(name) => name in known
    case Group(body) => NullableAlt(known, body)
  }

  predicate NullableItem(known: set<string>, item: Item)
    decreases item
  {
    item.quantifier.lo == 0 || NullableAtom(known, item.atom)
  }

  predicate NullableArm(known: set<string>, arm: Sequence)
    decreases arm
  {
    forall k :: 0 <= k < |arm.items| ==> NullableItem(known, arm.items[k])
  }

  predicate NullableAlt(known: set<string>, body: Alternation)
    decreases body
  {
    exists k :: 0 <= k < |body.arms| && NullableArm(known, body.arms[k])
  }

  /** The rules that derive the empty string. */
  ghost function NullableSet(rules: Rules): set<string> {
    set name | name in rules && InLanguage(rules, name, "")
  }

  lemma {:induction false} EmptyRuns(runs: seq<Run>, k: nat)
    requires RunsText(runs) == "" && k < |runs|
    ensures NodesText(runs[k].nodes) == ""
  {
    assert |RunsText(runs)| == |RunsText(runs[..|runs| - 1])| + |NodesText(runs[|runs| - 1].nodes)|;
    if k < |runs| - 1 {
      EmptyRuns(runs[..|runs| - 1], k);
    }
  }

  lemma {:induction false} EmptyNodes(nodes: seq<Node>, k: nat)
    requires NodesText(nodes) == "" && k < |nodes|
    ensures Spelling(nodes[k]) == ""
  {
    assert |NodesText(nodes)| == |NodesText(nodes[..|nodes| - 1])| + |Spelling(nodes[|nodes| - 1])|;
    if k < |nodes| - 1 {
      EmptyNodes(nodes[..|nodes| - 1], k);
    }
  }

  // A set no rule can be added to holds every rule with an empty derivation.
  lemma {:induction false} EmptyIsNullable(rules: Rules, known: set<string>, atom: Atom, node: Node)
    requires forall name :: name in rules && NullableAlt(known, rules[name]) ==> name in known
    requires Derives(rules, atom, node) && Spelling(node) == ""
    ensures NullableAtom(known, atom)
    decreases node
  {
    match atom
    case Literal(_) =>
    case CharClass(_) =>
    case RuleRef(name) => EmptyPickIsNullable(rules, known, rules[name], node.pick);
    case Group(body) => EmptyPickIsNullable(rules, known, body, node.pick);
  }

  lemma {:induction false} EmptyPickIsNullable(rules: Rules, known: set<string>, body: Alternation, pick: Pick)
    requires forall name :: name in rules && NullableAlt(known, rules[name]) ==> name in known
    requires DerivesPick(rules, body, pick) && RunsText(pick.runs) == ""
    ensures NullableAlt(known, body)
    decreases pick
  {
    var items := body.arms[pick.arm].items;
    forall k | 0 <= k < |items|
      ensures NullableItem(known, items[k])
    {
      EmptyRuns(pick.runs, k);
      EmptyRunIsNullable(rules, known, items[k], pick.runs[k]);
    }
  }

  lemma {:induction false} EmptyRunIsNullable(rules: Rules, known: set<string>, item: Item, run: Run)
    requires forall name :: name in rules && NullableAlt(known, rules[name]) ==> name in known
    requires DerivesRun(rules, item, run) && NodesText(run.nodes) == ""
    ensures NullableItem(known, item)
    decreases run
  {
    if item.quantifier.lo != 0 {
      EmptyNodes(run.nodes, 0);
      EmptyIsNullable(rules, known, item.atom, run.nodes[0]);
    }
  }

  // What is nullable over rules deriving the empty string derives it too.
  lemma {:induction false} NullableIsEmpty(rules: Rules, known: set<string>, atom: Atom) returns (node: Node)
    requires WellFormed(rules) && (atom.Group? ==> WellFormedAlt(atom.body))
    requires forall name :: name in known ==> InLanguage(rules, name, "")
    requires NullableAtom(known, atom)
    ensures Derives(rules, atom, node) && Spelling(node) == ""
    decreases atom
  {
    match atom
    case Literal(text) => node := Leaf(text);
    case CharClass(_) => node := Leaf("");
    case RuleRef(name) => node :| Derives(rules, atom, node) && Spelling(node) == "";
    case Group(body) =>
      var pick := NullableAltIsEmpty(rules, known, body);
      node := GroupNode(pick);
  }

  lemma {:induction false} NullableAltIsEmpty(rules: Rules, known: set<string>, body: Alternation) returns (pick: Pick)
    requires WellFormed(rules) && WellFormedAlt(body)
    requires forall name :: name in known ==> InLanguage(rules, name, "")
    requires NullableAlt(known, body)
    ensures DerivesPick(rules, body, pick) && RunsText(pick.runs) == ""
    decreases body
  {
    var k :| 0 <= k < |body.arms| && NullableArm(known, body.arms[k]);
    assert WellFormedArm(body.arms[k]);
    var runs := NullableItemsAreEmpty(rules, known, body.arms[k].items);
    pick := Pick(k, runs);
  }

  lemma {:induction false} NullableItemsAreEmpty(rules: Rules, known: set<string>, items: seq<Item>)
    returns (runs: seq<Run>)
    requires WellFormed(rules) && forall k :: 0 <= k < |items| ==> WellFormedItem(items[k])
    requires forall name :: name in known ==> InLanguage(rules, name, "")
    requires forall k :: 0 <= k < |items| ==> NullableItem(known, items[k])
    ensures DerivesArm(rules, items, runs) && RunsText(runs) == ""
    decreases items
  {
    runs := [];
    if items != [] {
      var last := |items| - 1;
      var before := NullableItemsAreEmpty(rules, known, items[..last]);
      var run := NullableItemIsEmpty(rules, known, items[last]);
      RunsTextAppend(before, run);
      runs := before + [run];
    }
  }

  lemma {:induction false} NullableItemIsEmpty(rules: Rules, known: set<string>, item: Item) returns (run: Run)
    requires WellFormed(rules) && WellFormedItem(item)
    requires forall name :: name in known ==> InLanguage(rules, name, "")
    requires NullableItem(known, item)
    ensures DerivesRun(rules, item, run) && NodesText(run.nodes) == ""
    decreases item
  {
    if item.quantifier.lo == 0 {
      run := Run([]);
    } else {
      var node := NullableIsEmpty(rules, known, item.atom);
      run := Run(seq(item.quantifier.lo, _ => node));
      RepeatedEmpty(node, item.quantifier.lo);
    }
  }

  lemma {:induction false} RepeatedEmpty(node: Node, count: nat)
    requires Spelling(node) == ""
    ensures NodesText(seq(count, _ => node)) == ""
  {
    if count > 0 {
      RepeatedEmpty(node, count - 1);
      assert seq(count, _ => node)[..count - 1] == seq(count - 1, _ => node);
    }
  }

  /** The nullability fixpoint finds exactly the rules that derive the empty string. */
  method NullableNames(rules: Rules) returns (nullable: set<string>)
    requires WellFormed(rules)
    ensures nullable == NullableSet(rules)
  {
    nullable := {};
    var changed := true;
    while changed
      invariant nullable <= rules.Keys
      invariant forall name :: name in nullable ==> InLanguage(rules, name, "")
      invariant !changed ==> forall name :: name in rules && NullableAlt(nullable, rules[name]) ==> name in nullable
      decreases rules.Keys - nullable, changed
    {
      changed := false;
      ghost var before := nullable;
      var pending := rules.Keys;
      while pending != {}
        invariant pending <= rules.Keys
        invariant before <= nullable <= rules.Keys
        invariant forall name :: name in nullable ==> InLanguage(rules, name, "")
        invariant if changed then before < nullable else before == nullable
        invariant !changed ==>
            forall name :: name in rules.Keys - pending && NullableAlt(nullable, rules[name]) ==> name in nullable
        decreases pending
      {
        var name :| name in pending;
        pending := pending - {name};
        if name !in nullable && NullableAlt(nullable, rules[name]) {
          var pick := NullableAltIsEmpty(rules, nullable, rules[name]);
          assert PickSpells(rules, rules[name], "");
          PickOfRule(rules, name, "");
          nullable := nullable + {name};
          changed := true;
        }
      }
    }
    forall name | name in NullableSet(rules)
      ensures name in nullable
    {
      var node :| Derives(rules, RuleRef(name), node) && Spelling(node) == "";
      EmptyIsNullable(rules, nullable, RuleRef(name), node);
    }
  }

  // ---------- The rewrite ----------

  function LiftItem(nullable: set<string>, item: Item): Item {
    if item.atom.RuleRef? && item.atom.name in nullable && item.quantifier == OPTIONAL
    then Item(item.atom, UNIT)
    else item
  }

  // Only the items of a rule's own arms are lifted; a group's interior is kept.
  function LiftArm(nullable: set<string>, arm: Sequence): Sequence {
    Sequence(seq(|arm.items|, k requires 0 <= k < |arm.items| => LiftItem(nullable, arm.items[k])))
  }

  function LiftBody(nullable: set<string>, body: Alternation): Alternation {
    Alternation(seq(|body.arms|, k requires 0 <= k < |body.arms| => LiftArm(nullable, body.arms[k])))
  }

  function LiftRules(rules: Rules, nullable: set<string>): Rules {
    map name | name in rules :: LiftBody(nullable, rules[name])
  }

  ghost function Lifted(rules: Rules): Rules {
    LiftRules(rules, NullableSet(rules))
  }

  /** `after` is `before` with some items lifted. */
  ghost predicate SomeLifted(nullable: set<string>, before: seq<Item>, after: seq<Item>) {
    && |before| == |after|
    && forall k :: 0 <= k < |before| ==> after[k] == before[k] || after[k] == LiftItem(nullable, before[k])
  }

  // ---------- The lift adds nothing ----------

  /** Every derivation of the lifted grammar is a derivation of the original. */
  lemma {:induction false} LiftAddsNothing(rules: Rules, nullable: set<string>, atom: Atom, node: Node)
    requires Derives(LiftRules(rules, nullable), atom, node)
    ensures Derives(rules, atom, node)
    decreases node
  {
    match atom
    case Literal(_) =>
    case CharClass(_) =>
    case RuleRef(name) =>
      var arm := rules[name].arms[node.pick.arm];
      UnliftArm(rules, nullable, arm.items, LiftArm(nullable, arm).items, node.pick.runs);
    case Group(body) =>
      var items := body.arms[node.pick.arm].items;
      UnliftArm(rules, nullable, items, items, node.pick.runs);
  }

  lemma {:induction false} UnliftArm(rules: Rules, nullable: set<string>, before: seq<Item>, after: seq<Item>,
          runs: seq<Run>)
    requires SomeLifted(nullable, before, after)
    requires DerivesArm(LiftRules(rules, nullable), after, runs)
    ensures DerivesArm(rules, before, runs)
    decreases runs
  {
    forall k | 0 <= k < |runs|
      ensures DerivesRun(rules, before[k], runs[k])
    {
      UnliftRun(rules, nullable, before[k], after[k], runs[k]);
    }
  }

  lemma {:induction false} UnliftRun(rules: Rules, nullable: set<string>, before: Item, after: Item, run: Run)
    requires after == before || after == LiftItem(nullable, before)
    requires DerivesRun(LiftRules(rules, nullable), after, run)
    ensures DerivesRun(rules, before, run)
    decreases run
  {
    forall k | 0 <= k < |run.nodes|
      ensures Derives(rules, before.atom, run.nodes[k])
    {
      LiftAddsNothing(rules, nullable, after.atom, run.nodes[k]);
    }
  }

  // ---------- The lift loses nothing while nullability is kept ----------

  lemma {:induction false} LiftNode(rules: Rules, nullable: set<string>, atom: Atom, node: Node) returns (lifted: Node)
    requires forall name :: name in nullable ==> InLanguage(LiftRules(rules, nullable), name, "")
    requires Derives(rules, atom, node)
    ensures Derives(LiftRules(rules, nullable), atom, lifted) && Spelling(lifted) == Spelling(node)
    decreases node
  {
    match atom
    case Literal(_) => lifted := node;
    case CharClass(_) => lifted := node;
    case RuleRef(name) =>
      var arm := rules[name].arms[node.pick.arm];
      var runs := LiftRuns(rules, nullable, arm.items, LiftArm(nullable, arm).items, node.pick.runs);
      lifted := RuleNode(name, Pick(node.pick.arm, runs));
    case Group(body) =>
      var items := body.arms[node.pick.arm].items;
      var runs := LiftRuns(rules, nullable, items, items, node.pick.runs);
      lifted := GroupNode(Pick(node.pick.arm, runs));
  }

  lemma {:induction false} LiftRuns(rules: Rules, nullable: set<string>, before: seq<Item>, after: seq<Item>,
          runs: seq<Run>)
    returns (lifted: seq<Run>)
    requires forall name :: name in nullable ==> InLanguage(LiftRules(rules, nullable), name, "")
    requires SomeLifted(nullable, before, after) && DerivesArm(rules, before, runs)
    ensures DerivesArm(LiftRules(rules, nullable), after, lifted) && RunsText(lifted) == RunsText(runs)
    decreases runs
  {
    lifted := [];
    if runs != [] {
      var last := |runs| - 1;
      var front := LiftRuns(rules, nullable, before[..last], after[..last], runs[..last]);
      var run := LiftRun(rules, nullable, before[last], after[last], runs[last]);
      RunsTextAppend(front, run);
      lifted := front + [run];
    }
  }

  // The absent occurrence becomes a present, empty one.
  lemma EmptyOccurrence(rules: Rules, nullable: set<string>, item: Item) returns (run: Run)
    requires forall name :: name in nullable ==> InLanguage(LiftRules(rules, nullable), name, "")
    requires item.atom.RuleRef? && item.atom.name in nullable && item.quantifier == UNIT
    ensures DerivesRun(LiftRules(rules, nullable), item, run) && NodesText(run.nodes) == ""
  {
    var lifted := LiftRules(rules, nullable);
    assert InLanguage(lifted, item.atom.name, "");
    var empty :| Derives(lifted, item.atom, empty) && Spelling(empty) == "";
    hide Derives, Spelling, InLanguage, LiftRules;
    NodesTextAppend([], empty);
    run := Run([empty]);
    assert [] + [empty] == [empty];
  }

  lemma {:induction false} LiftRun(rules: Rules, nullable: set<string>, before: Item, after: Item, run: Run)
    returns (lifted: Run)
    requires forall name :: name in nullable ==> InLanguage(LiftRules(rules, nullable), name, "")
    requires after == before || after == LiftItem(nullable, before)
    requires DerivesRun(rules, before, run)
    ensures DerivesRun(LiftRules(rules, nullable), after, lifted) && NodesText(lifted.nodes) == NodesText(run.nodes)
    decreases run
  {
    if after != before && run.nodes == [] {
      lifted := EmptyOccurrence(rules, nullable, after);
    } else {
      var nodes := LiftNodes(rules, nullable, before.atom, run.nodes);
      lifted := Run(nodes);
    }
  }

  lemma {:induction false} LiftNodes(rules: Rules, nullable: set<string>, atom: Atom, nodes: seq<Node>)
    returns (lifted: seq<Node>)
    requires forall name :: name in nullable ==> InLanguage(LiftRules(rules, nullable), name, "")
    requires forall k :: 0 <= k < |nodes| ==> Derives(rules, atom, nodes[k])
    ensures |lifted| == |nodes| && NodesText(lifted) == NodesText(nodes)
    ensures forall k :: 0 <= k < |lifted| ==> Derives(LiftRules(rules, nullable), atom, lifted[k])
    decreases nodes
  {
    lifted := [];
    if nodes != [] {
      var last := |nodes| - 1;
      var front := LiftNodes(rules, nullable, atom, nodes[..last]);
      var node := LiftNode(rules, nullable, atom, nodes[last]);
      NodesTextAppend(front, node);
      lifted := front + [node];
    }
  }

  // ---------- When the lift preserves every language ----------

  ghost predicate SameLanguages(one: Rules, other: Rules) {
    forall name, text :: InLanguage(one, name, text) <==> InLanguage(other, name, text)
  }

  /** The lift preserves every rule's language exactly when it preserves nullability. */
  lemma LiftPreservesLanguages(rules: Rules)
    ensures SameLanguages(rules, Lifted(rules)) <==> NullableSet(Lifted(rules)) == NullableSet(rules)
  {
    var nullable := NullableSet(rules);
    if NullableSet(Lifted(rules)) == nullable {
      forall name, text
        ensures InLanguage(rules, name, text) <==> InLanguage(Lifted(rules), name, text)
      {
        LiftSubset(rules, name, text);
        if InLanguage(rules, name, text) {
          var node :| Derives(rules, RuleRef(name), node) && Spelling(node) == text;
          var lifted := LiftNode(rules, nullable, RuleRef(name), node);
          assert Derives(Lifted(rules), RuleRef(name), lifted);
        }
      }
    }
  }

  /** A string of a lifted rule is a string of the original rule, on every grammar. */
  lemma LiftSubset(rules: Rules, name: string, text: string)
    ensures InLanguage(Lifted(rules), name, text) ==> InLanguage(rules, name, text)
  {
    if InLanguage(Lifted(rules), name, text) {
      var node :| Derives(Lifted(rules), RuleRef(name), node) && Spelling(node) == text;
      LiftAddsNothing(rules, NullableSet(rules), RuleRef(name), node);
      assert Derives(rules, RuleRef(name), node);
    }
  }

  /** Lifts a grammar and decides whether that preserved every rule's language. */
  method LiftOptionalNullables(rules: Rules) returns (lifted: Rules, exact: bool)
    requires WellFormed(rules)
    ensures lifted == Lifted(rules)
    ensures exact <==> SameLanguages(rules, lifted)
  {
    var nullable := NullableNames(rules);
    lifted := LiftRules(rules, nullable);
    LiftKeepsWellFormed(rules, nullable);
    var still := NullableNames(lifted);
    exact := still == nullable;
    LiftPreservesLanguages(rules);
  }

  lemma LiftKeepsWellFormed(rules: Rules, nullable: set<string>)
    requires WellFormed(rules)
    ensures WellFormed(LiftRules(rules, nullable))
  {
    forall name | name in rules
      ensures WellFormedAlt(LiftBody(nullable, rules[name]))
    {
      forall k | 0 <= k < |rules[name].arms|
        ensures WellFormedArm(LiftArm(nullable, rules[name].arms[k]))
      {
        var arm := rules[name].arms[k];
        assert WellFormedArm(arm);
        forall j | 0 <= j < |arm.items|
          ensures WellFormedItem(LiftItem(nullable, arm.items[j]))
        {
          assert WellFormedItem(arm.items[j]);
        }
      }
    }
  }

  // ---------- What the grammar must meet ----------

  /** The item will have to occur: it must already, or it is an optional reference to a nullable rule. */
  predicate MustOccur(nullable: set<string>, item: Item) {
    item.quantifier.lo != 0 || (item.atom.RuleRef? && item.quantifier == OPTIONAL && item.atom.name in nullable)
  }

  /** Every item that will have to occur is empty through references to `below`. */
  predicate EmptyThrough(nullable: set<string>, below: set<string>, arm: Sequence) {
    forall k :: 0 <= k < |arm.items| && MustOccur(nullable, arm.items[k]) ==> NullableAtom(below, arm.items[k].atom)
  }

  function Below(rank: map<string, nat>, bound: nat): set<string> {
    set ref | ref in rank && rank[ref] < bound
  }

  /** Some arm of the rule is empty through references to `below`. */
  ghost predicate RestsOn(rules: Rules, nullable: set<string>, below: set<string>, name: string) {
    name in rules && exists k :: 0 <= k < |rules[name].arms| && EmptyThrough(nullable, below, rules[name].arms[k])
  }

  /** Every rule ranked rests on rules of lower rank. */
  ghost predicate RankedOver(rules: Rules, nullable: set<string>, rank: map<string, nat>) {
    forall name :: name in rank ==> RestsOn(rules, nullable, Below(rank, rank[name]), name)
  }

  /** The nullable rules rest on one another without a circle. */
  ghost predicate WellFounded(rules: Rules) {
    exists rank: map<string, nat> :: rank.Keys == NullableSet(rules) && RankedOver(rules, NullableSet(rules), rank)
  }

  lemma LiftedArmEmpty(nullable: set<string>, below: set<string>, arm: Sequence)
    ensures NullableArm(below, LiftArm(nullable, arm)) <==> EmptyThrough(nullable, below, arm)
  {
    var items := LiftArm(nullable, arm).items;
    forall k | 0 <= k < |arm.items|
      ensures NullableItem(below, items[k]) <==> (MustOccur(nullable, arm.items[k]) ==> NullableAtom(below, arm.items[k].atom))
    {
      assert items[k] == LiftItem(nullable, arm.items[k]);
    }
  }

  lemma {:induction false} RankedNullabilityKept(rules: Rules, rank: map<string, nat>, name: string)
    requires WellFormed(rules) && RankedOver(rules, NullableSet(rules), rank) && name in rank
    ensures InLanguage(Lifted(rules), name, "")
    decreases rank[name]
  {
    var nullable := NullableSet(rules);
    var below := Below(rank, rank[name]);
    forall ref | ref in below
      ensures InLanguage(Lifted(rules), ref, "")
    {
      RankedNullabilityKept(rules, rank, ref);
    }
    assert RestsOn(rules, nullable, below, name);
    var k :| 0 <= k < |rules[name].arms| && EmptyThrough(nullable, below, rules[name].arms[k]);
    LiftedArmEmpty(nullable, below, rules[name].arms[k]);
    LiftKeepsWellFormed(rules, nullable);
    var body := LiftBody(nullable, rules[name]);
    assert Lifted(rules)[name] == body && body.arms[k] == LiftArm(nullable, rules[name].arms[k]);
    var pick := NullableAltIsEmpty(Lifted(rules), below, body);
    assert PickSpells(Lifted(rules), Lifted(rules)[name], "");
    PickOfRule(Lifted(rules), name, "");
  }

  // While some rules nullable after the lift are not ranked, one of them rests on ranked ones.
  lemma NextToRank(rules: Rules, known: set<string>) returns (name: string)
    requires WellFormed(rules) && known < NullableSet(Lifted(rules))
    ensures name in NullableSet(Lifted(rules)) - known && RestsOn(rules, NullableSet(rules), known, name)
  {
    var lifted := Lifted(rules);
    LiftKeepsWellFormed(rules, NullableSet(rules));
    if forall other :: other in lifted && NullableAlt(known, lifted[other]) ==> other in known {
      forall other | other in NullableSet(lifted) ensures other in known {
        var node :| Derives(lifted, RuleRef(other), node) && Spelling(node) == "";
        EmptyIsNullable(lifted, known, RuleRef(other), node);
      }
      assert false;
    }
    name :| name in lifted && NullableAlt(known, lifted[name]) && name !in known;
    var pick := NullableAltIsEmpty(lifted, known, lifted[name]);
    assert PickSpells(lifted, lifted[name], "");
    PickOfRule(lifted, name, "");
    var k :| 0 <= k < |lifted[name].arms| && NullableArm(known, lifted[name].arms[k]);
    LiftedArmEmpty(NullableSet(rules), known, rules[name].arms[k]);
  }

  lemma {:induction false} RankLifted(rules: Rules, known: map<string, nat>) returns (rank: map<string, nat>)
    requires WellFormed(rules) && RankedOver(rules, NullableSet(rules), known)
    requires known.Keys <= NullableSet(Lifted(rules)) && forall name :: name in known ==> known[name] < |known|
    ensures rank.Keys == NullableSet(Lifted(rules)) && RankedOver(rules, NullableSet(rules), rank)
    decreases NullableSet(Lifted(rules)) - known.Keys
  {
    rank := known;
    if known.Keys != NullableSet(Lifted(rules)) {
      var name := NextToRank(rules, known.Keys);
      MoreRanked(rules, known, name);
      rank := RankLifted(rules, known[name := |known|]);
    }
  }

  // A rule resting on all those ranked may be ranked above them.
  lemma MoreRanked(rules: Rules, known: map<string, nat>, name: string)
    requires RankedOver(rules, NullableSet(rules), known) && forall other :: other in known ==> known[other] < |known|
    requires name !in known && RestsOn(rules, NullableSet(rules), known.Keys, name)
    ensures var more := known[name := |known|];
            RankedOver(rules, NullableSet(rules), more) && forall other :: other in more ==> more[other] < |more|
  {
    hide RestsOn, NullableSet;
    var more := known[name := |known|];
    assert more.Keys == known.Keys + {name};
    assert |more.Keys| == |known.Keys| + 1;
    assert Below(more, |known|) == known.Keys;
    forall other | other in known
      ensures Below(more, more[other]) == Below(known, known[other]) && more[other] == known[other]
    {
    }
  }

  /** The lift keeps every language exactly when the nullable rules rest on one another without a circle. */
  lemma LiftPreservesExactly(rules: Rules)
    requires WellFormed(rules)
    ensures SameLanguages(rules, Lifted(rules)) <==> WellFounded(rules)
  {
    LiftPreservesLanguages(rules);
    LiftedNullableShrinks(rules);
    if NullableSet(Lifted(rules)) == NullableSet(rules) {
      var rank := RankLifted(rules, map[]);
    }
    if rank: map<string, nat> :| rank.Keys == NullableSet(rules) && RankedOver(rules, NullableSet(rules), rank) {
      forall name | name in NullableSet(rules)
        ensures name in NullableSet(Lifted(rules))
      {
        RankedNullabilityKept(rules, rank, name);
      }
    }
  }

  // ---------- References without a cycle are enough ----------

  /** What each nullable rule names among the nullable rules. */
  ghost function NullableGraph(rules: Rules): Graph {
    map name | name in NullableSet(rules) :: Listed(AltRefs(rules[name]) * NullableSet(rules))
  }

  lemma {:induction false} NullableByRefs(known: set<string>, fewer: set<string>, atom: Atom)
    requires NullableAtom(known, atom)
    requires forall name :: name in AtomRefs(atom) && name in known ==> name in fewer
    ensures NullableAtom(fewer, atom)
    decreases atom
  {
    if atom.Group? {
      var k :| 0 <= k < |atom.body.arms| && NullableArm(known, atom.body.arms[k]);
      forall name | name in ArmRefs(atom.body.arms[k])
        ensures name in AltRefs(atom.body)
      {
      }
      assert AtomRefs(atom) == AltRefs(atom.body);
      NullableArmByRefs(known, fewer, atom.body.arms[k]);
    }
  }

  lemma {:induction false} NullableArmByRefs(known: set<string>, fewer: set<string>, arm: Sequence)
    requires NullableArm(known, arm)
    requires forall name :: name in ArmRefs(arm) && name in known ==> name in fewer
    ensures NullableArm(fewer, arm)
    decreases arm
  {
    forall k | 0 <= k < |arm.items|
      ensures NullableItem(fewer, arm.items[k])
    {
      var item := arm.items[k];
      assert NullableItem(known, item);
      if item.quantifier.lo != 0 {
        NullableByRefs(known, fewer, item.atom);
      }
    }
  }

  // An arm nullable over all nullable rules rests on those it names.
  lemma NullableArmRests(nullable: set<string>, below: set<string>, arm: Sequence)
    requires NullableArm(nullable, arm)
    requires forall name :: name in ArmRefs(arm) && name in nullable ==> name in below
    ensures EmptyThrough(nullable, below, arm)
  {
    forall k | 0 <= k < |arm.items| && MustOccur(nullable, arm.items[k])
      ensures NullableAtom(below, arm.items[k].atom)
    {
      var item := arm.items[k];
      assert NullableItem(nullable, item);
      assert AtomRefs(item.atom) <= ArmRefs(arm);
      NullableByRefs(nullable, below, item.atom);
    }
  }

  lemma NullableRuleHasArm(rules: Rules, name: string) returns (k: nat)
    requires WellFormed(rules) && name in NullableSet(rules)
    ensures k < |rules[name].arms| && NullableArm(NullableSet(rules), rules[name].arms[k])
  {
    var nullable := NullableSet(rules);
    forall other | other in rules && NullableAlt(nullable, rules[other])
      ensures other in nullable
    {
      var pick := NullableAltIsEmpty(rules, nullable, rules[other]);
      assert PickSpells(rules, rules[other], "");
      PickOfRule(rules, other, "");
    }
    var node :| Derives(rules, RuleRef(name), node) && Spelling(node) == "";
    EmptyPickIsNullable(rules, nullable, rules[name], node.pick);
    var arm: int :| 0 <= arm < |rules[name].arms| && NullableArm(nullable, rules[name].arms[arm]);
    k := arm;
  }

  /** What a nullable rule reaches among the nullable rules. */
  ghost function ReachedFrom(rules: Rules, name: string): set<string> {
    set b | b in NullableSet(rules) && Reaches(NullableGraph(rules), name, b)
  }

  // Along a reference less is reached, when no cycle leads back.
  lemma ReachedShrinks(rules: Rules, name: string, ref: string)
    requires Acyclic(NullableGraph(rules))
    requires name in NullableSet(rules) && ref in NullableSet(rules) && ref in AltRefs(rules[name])
    ensures |ReachedFrom(rules, ref)| < |ReachedFrom(rules, name)|
  {
    var graph := NullableGraph(rules);
    assert ref in Elements(graph[name]);
    EdgeReaches(graph, name, ref);
    forall b | b in ReachedFrom(rules, ref) ensures b in ReachedFrom(rules, name) {
      ReachesOn(graph, name, ref, b);
    }
    assert ReachedFrom(rules, ref) <= ReachedFrom(rules, name) - {ref};
    Fewer(ReachedFrom(rules, ref), ReachedFrom(rules, name) - {ref});
  }

  lemma {:induction false} Fewer(a: set<string>, b: set<string>)
    requires a <= b
    ensures |a| <= |b|
  {
    if a != {} {
      var x :| x in a;
      Fewer(a - {x}, b - {x});
    }
  }

  lemma AcyclicRests(rules: Rules, name: string, below: set<string>)
    requires WellFormed(rules) && name in NullableSet(rules)
    requires forall ref :: ref in AltRefs(rules[name]) && ref in NullableSet(rules) ==> ref in below
    ensures RestsOn(rules, NullableSet(rules), below, name)
  {
    var k := NullableRuleHasArm(rules, name);
    var arm := rules[name].arms[k];
    assert ArmRefs(arm) <= AltRefs(rules[name]);
    NullableArmRests(NullableSet(rules), below, arm);
  }

  lemma AcyclicIsWellFounded(rules: Rules)
    requires WellFormed(rules) && Acyclic(NullableGraph(rules))
    ensures WellFounded(rules)
  {
    hide RestsOn, NullableGraph, ReachedFrom, Acyclic, WellFormed, AltRefs;
    var nullable := NullableSet(rules);
    var rank := map name | name in nullable :: |ReachedFrom(rules, name)|;
    forall name | name in rank
      ensures RestsOn(rules, nullable, Below(rank, rank[name]), name)
    {
      forall ref | ref in AltRefs(rules[name]) && ref in nullable ensures ref in Below(rank, rank[name]) {
        ReachedShrinks(rules, name, ref);
      }
      AcyclicRests(rules, name, Below(rank, rank[name]));
    }
    assert rank.Keys == nullable && RankedOver(rules, nullable, rank);
  }

  /** No nullable rule reaching itself through nullable references, the lift changes no language. */
  lemma AcyclicLiftPreservesLanguages(rules: Rules)
    requires WellFormed(rules) && Acyclic(NullableGraph(rules))
    ensures SameLanguages(rules, Lifted(rules))
  {
    AcyclicIsWellFounded(rules);
    LiftPreservesExactly(rules);
  }

  lemma LiftedNullableShrinks(rules: Rules)
    ensures NullableSet(Lifted(rules)) <= NullableSet(rules)
  {
    forall name | name in NullableSet(Lifted(rules))
      ensures name in NullableSet(rules)
    {
      LiftSubset(rules, name, "");
    }
  }

  /** Lifting twice is lifting once. */
  lemma LiftIsIdempotent(rules: Rules)
    ensures Lifted(Lifted(rules)) == Lifted(rules)
  {
    LiftedNullableShrinks(rules);
    var first, second := NullableSet(rules), NullableSet(Lifted(rules));
    forall name | name in rules
      ensures LiftBody(second, LiftBody(first, rules[name])) == LiftBody(first, rules[name])
    {
      forall k | 0 <= k < |rules[name].arms|
        ensures LiftArm(second, LiftArm(first, rules[name].arms[k])) == LiftArm(first, rules[name].arms[k])
      {
      }
    }
  }

  /**
   The lift keeps every item at its position over the same atom, and leaves no
   optional reference to a rule that derives the empty string.
   */
  lemma LiftSettlesOptionals(rules: Rules, name: string, k: nat, j: nat)
    requires name in rules && k < |rules[name].arms| && j < |rules[name].arms[k].items|
    ensures |Lifted(rules)[name].arms| == |rules[name].arms|
    ensures |Lifted(rules)[name].arms[k].items| == |rules[name].arms[k].items|
    ensures Lifted(rules)[name].arms[k].items[j].atom == rules[name].arms[k].items[j].atom
    ensures var item := Lifted(rules)[name].arms[k].items[j];
            item.atom.RuleRef? && item.quantifier == OPTIONAL ==>
              !InLanguage(rules, item.atom.name, "") && !InLanguage(Lifted(rules), item.atom.name, "")
  {
    var item := Lifted(rules)[name].arms[k].items[j];
    if item.atom.RuleRef? && item.quantifier == OPTIONAL {
      assert item.atom.name !in NullableSet(rules);
      LiftSubset(rules, item.atom.name, "");
    }
  }

  // ---------- The lift is not exact on every grammar ----------

  const CYCLIC: Rules := map[
    "A" := Alternation([Sequence([Item(Literal("x"), UNIT)]), Sequence([Item(RuleRef("B"), OPTIONAL)])]),
    "B" := Alternation([Sequence([Item(RuleRef("A"), OPTIONAL)])])
  ]

  const CYCLIC_LIFTED: Rules := map[
    "A" := Alternation([Sequence([Item(Literal("x"), UNIT)]), Sequence([Item(RuleRef("B"), UNIT)])]),
    "B" := Alternation([Sequence([Item(RuleRef("A"), UNIT)])])
  ]

  lemma {:induction false} CyclicLiftedIsNeverEmpty(name: string, node: Node)
    requires name == "A" || name == "B"
    requires Derives(CYCLIC_LIFTED, RuleRef(name), node)
    ensures Spelling(node) != ""
    decreases node
  {
    var pick := node.pick;
    assert DerivesPick(CYCLIC_LIFTED, CYCLIC_LIFTED[name], pick);
    var items := CYCLIC_LIFTED[name].arms[pick.arm].items;
    assert DerivesArm(CYCLIC_LIFTED, items, pick.runs) && |items| == 1;
    assert DerivesRun(CYCLIC_LIFTED, items[0], pick.runs[0]) && items[0].quantifier == UNIT;
    var inner := pick.runs[0].nodes[0];
    assert Derives(CYCLIC_LIFTED, items[0].atom, inner);
    if items[0].atom.RuleRef? {
      CyclicLiftedIsNeverEmpty(items[0].atom.name, inner);
    }
    if Spelling(node) == "" {
      EmptyRuns(pick.runs, 0);
      EmptyNodes(pick.runs[0].nodes, 0);
    }
  }

  lemma CyclicEmpty(name: string)
    requires name == "A" || name == "B"
    ensures InLanguage(CYCLIC, name, "")
  {
    var arm := |CYCLIC[name].arms| - 1;
    var item := CYCLIC[name].arms[arm].items[0];
    assert DerivesRun(CYCLIC, item, Run([]));
    assert DerivesArm(CYCLIC, CYCLIC[name].arms[arm].items, [Run([])]);
    assert DerivesPick(CYCLIC, CYCLIC[name], Pick(arm, [Run([])]));
    RunsTextAppend([], Run([]));
    assert [] + [Run([])] == [Run([])];
    PickOfRule(CYCLIC, name, "");
  }

  /** With `A ::= "x" | B?` and `B ::= A?` the lifted `A` no longer derives the empty string. */
  lemma CyclicLiftLosesEmpty()
    ensures InLanguage(CYCLIC, "A", "") && !InLanguage(Lifted(CYCLIC), "A", "")
  {
    CyclicEmpty("A");
    CyclicEmpty("B");
    assert NullableSet(CYCLIC) == {"A", "B"};
    forall name | name in CYCLIC
      ensures LiftBody({"A", "B"}, CYCLIC[name]) == CYCLIC_LIFTED[name]
    {
      forall k | 0 <= k < |CYCLIC[name].arms|
        ensures LiftArm({"A", "B"}, CYCLIC[name].arms[k]) == CYCLIC_LIFTED[name].arms[k]
      {
        assert |CYCLIC[name].arms[k].items| == 1;
      }
    }
    assert Lifted(CYCLIC) == CYCLIC_LIFTED;
    forall node | Derives(CYCLIC_LIFTED, RuleRef("A"), node)
      ensures Spelling(node) != ""
    {
      CyclicLiftedIsNeverEmpty("A", node);
    }
  }
}
