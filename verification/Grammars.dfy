/**
 Grammars and what they derive.

 The intermediate representation: a rule body is an alternation of arms, an arm a
 sequence of quantified items, an atom a literal, a character class, a rule
 reference or a nested group.  A rule's language is given by derivation trees.
 */
module Grammars {
  import opened Wrappers

  datatype Quantifier = Quantifier(lo: nat, hi: Option<nat>) {
    predicate Admits(count: nat) {
      lo <= count && (hi.Some? ==> count <= hi.value)
    }

    // Some count is admitted.
    predicate WellFormed() {
      hi.Some? ==> lo <= hi.value
    }
  }

  const UNIT := Quantifier(1, Some(1))
  const OPTIONAL := Quantifier(0, Some(1))
  const STAR := Quantifier(0, None)

  datatype Atom =
    | Literal(text: string)
    | CharClass(members: set<char>)
    | RuleRef(name: string)
    | Group(body: Alternation)

  datatype Item = Item(atom: Atom, quantifier: Quantifier)

  datatype Sequence = Sequence(items: seq<Item>)

  datatype Alternation = Alternation(arms: seq<Sequence>)

  type Rules = map<string, Alternation>

  // ---------- Derivation trees ----------

  /** One occurrence of an atom: the text of a terminal, or the arm an expansion picked. */
  datatype Node =
    | Leaf(text: string)
    | RuleNode(name: string, pick: Pick)
    | GroupNode(pick: Pick)

  /** A picked arm and, per item of that arm, its run of occurrences. */
  datatype Pick = Pick(arm: nat, runs: seq<Run>)

  datatype Run = Run(nodes: seq<Node>)

  predicate Derives(rules: Rules, atom: Atom, node: Node)
    decreases node
  {
    match atom
    case Literal(text) => node == Leaf(text)
    case CharClass(members) => node.Leaf? && |node.text| == 1 && node.text[0] in members
    case RuleRef(name) =>
      node.RuleNode? && node.name == name && name in rules && DerivesPick(rules, rules[name], node.pick)
    case Group(body) => node.GroupNode? && DerivesPick(rules, body, node.pick)
  }

  predicate DerivesPick(rules: Rules, body: Alternation, pick: Pick)
    decreases pick
  {
    pick.arm < |body.arms| && DerivesArm(rules, body.arms[pick.arm].items, pick.runs)
  }

  predicate DerivesArm(rules: Rules, items: seq<Item>, runs: seq<Run>)
    decreases runs
  {
    && |runs| == |items|
    && forall k :: 0 <= k < |runs| ==> DerivesRun(rules, items[k], runs[k])
  }

  predicate DerivesRun(rules: Rules, item: Item, run: Run)
    decreases run
  {
    && item.quantifier.Admits(|run.nodes|)
    && forall k :: 0 <= k < |run.nodes| ==> Derives(rules, item.atom, run.nodes[k])
  }

  // ---------- The text a tree spells ----------

  function Spelling(node: Node): string
    decreases node
  {
    match node
    case Leaf(text) => text
    case RuleNode(_, pick) => RunsText(pick.runs)
    case GroupNode(pick) => RunsText(pick.runs)
  }

  function RunsText(runs: seq<Run>): string
    decreases runs
  {
    if runs == [] then ""
    else RunsText(runs[..|runs| - 1]) + NodesText(runs[|runs| - 1].nodes)
  }

  function NodesText(nodes: seq<Node>): string
    decreases nodes
  {
    if nodes == [] then ""
    else NodesText(nodes[..|nodes| - 1]) + Spelling(nodes[|nodes| - 1])
  }

  // ---------- Languages ----------

  ghost predicate Derivable(rules: Rules, atom: Atom) {
    exists node :: Derives(rules, atom, node)
  }

  /** `text` is in the language of `atom`. */
  ghost predicate Spells(rules: Rules, atom: Atom, text: string) {
    exists node :: Derives(rules, atom, node) && Spelling(node) == text
  }

  /** `text` is in the language of the rule called `name`. */
  ghost predicate InLanguage(rules: Rules, name: string, text: string) {
    Spells(rules, RuleRef(name), text)
  }

  ghost predicate ArmSpells(rules: Rules, items: seq<Item>, text: string) {
    exists runs :: DerivesArm(rules, items, runs) && RunsText(runs) == text
  }

  /** `text` is spelled by some arm of `body`. */
  ghost predicate PickSpells(rules: Rules, body: Alternation, text: string) {
    exists pick :: DerivesPick(rules, body, pick) && RunsText(pick.runs) == text
  }

  ghost predicate RunSpells(rules: Rules, item: Item, text: string) {
    exists run :: DerivesRun(rules, item, run) && NodesText(run.nodes) == text
  }

  lemma PickOfRule(rules: Rules, name: string, text: string)
    requires name in rules && PickSpells(rules, rules[name], text)
    ensures InLanguage(rules, name, text)
  {
    var pick :| DerivesPick(rules, rules[name], pick) && RunsText(pick.runs) == text;
    assert Derives(rules, RuleRef(name), RuleNode(name, pick)) && Spelling(RuleNode(name, pick)) == text;
  }

  lemma PickOfGroup(rules: Rules, body: Alternation, text: string)
    requires PickSpells(rules, body, text)
    ensures Spells(rules, Group(body), text)
  {
    var pick :| DerivesPick(rules, body, pick) && RunsText(pick.runs) == text;
    assert Derives(rules, Group(body), GroupNode(pick)) && Spelling(GroupNode(pick)) == text;
  }

  // ---------- Appending ----------

  lemma RunsTextAppend(runs: seq<Run>, run: Run)
    ensures RunsText(runs + [run]) == RunsText(runs) + NodesText(run.nodes)
  {
    assert (runs + [run])[..|runs|] == runs;
  }

  lemma NodesTextAppend(nodes: seq<Node>, node: Node)
    ensures NodesText(nodes + [node]) == NodesText(nodes) + Spelling(node)
  {
    assert (nodes + [node])[..|nodes|] == nodes;
  }

  /** An arm's runs so far, and the next. */
  lemma ArmExtends(rules: Rules, items: seq<Item>, k: nat, runs: seq<Run>, run: Run)
    requires k < |items| && DerivesArm(rules, items[..k], runs) && DerivesRun(rules, items[k], run)
    ensures DerivesArm(rules, items[..k + 1], runs + [run])
    ensures RunsText(runs + [run]) == RunsText(runs) + NodesText(run.nodes)
  {
    RunsTextAppend(runs, run);
    hide DerivesRun;
    forall j | 0 <= j < |runs + [run]| ensures DerivesRun(rules, items[..k + 1][j], (runs + [run])[j]) {
      assert j < k ==> items[..k + 1][j] == items[..k][j] && (runs + [run])[j] == runs[j];
    }
  }

  // ---------- The rules a body names ----------

  /** Every rule the body names, groups included. */
  function AltRefs(body: Alternation): set<string>
    decreases body
  {
    set k, name | 0 <= k < |body.arms| && name in ArmRefs(body.arms[k]) :: name
  }

  function ArmRefs(arm: Sequence): set<string>
    decreases arm
  {
    set k, name | 0 <= k < |arm.items| && name in AtomRefs(arm.items[k].atom) :: name
  }

  function AtomRefs(atom: Atom): set<string>
    decreases atom
  {
    match atom
    case RuleRef(name) => {name}
    case Group(body) => AltRefs(body)
    case _ => {}
  }

  // ---------- Static conditions on a body ----------

  /** Every quantifier in `body`, groups included, admits some count. */
  predicate WellFormedAlt(body: Alternation)
    decreases body
  {
    forall k :: 0 <= k < |body.arms| ==> WellFormedArm(body.arms[k])
  }

  predicate WellFormedArm(arm: Sequence)
    decreases arm
  {
    forall k :: 0 <= k < |arm.items| ==> WellFormedItem(arm.items[k])
  }

  predicate WellFormedItem(item: Item)
    decreases item
  {
    item.quantifier.WellFormed() && (item.atom.Group? ==> WellFormedAlt(item.atom.body))
  }

  predicate WellFormed(rules: Rules) {
    forall name :: name in rules ==> WellFormedAlt(rules[name])
  }

  /** Every reference in `body` names a member of `names`, and no character class is empty. */
  predicate GroundedAlt(names: set<string>, body: Alternation)
    decreases body
  {
    forall k :: 0 <= k < |body.arms| ==> GroundedArm(names, body.arms[k])
  }

  predicate GroundedArm(names: set<string>, arm: Sequence)
    decreases arm
  {
    forall k :: 0 <= k < |arm.items| ==> GroundedAtom(names, arm.items[k].atom)
  }

  predicate GroundedAtom(names: set<string>, atom: Atom)
    decreases atom
  {
    match atom
    case Literal(_) => true
    case CharClass(members) => members != {}
    case RuleRef(name) => name in names
    case Group(body) => GroundedAlt(names, body)
  }

  /** `names` are defined rules whose references stay inside `names`. */
  predicate Closed(rules: Rules, names: set<string>) {
    && names <= rules.Keys
    && forall name :: name in names ==> GroundedAlt(names, rules[name])
  }

  /** No alternation in `body`, groups included, is without arms. */
  predicate ArmedAlt(body: Alternation)
    decreases body
  {
    body.arms != [] && forall k :: 0 <= k < |body.arms| ==> ArmedArm(body.arms[k])
  }

  predicate ArmedArm(arm: Sequence)
    decreases arm
  {
    forall k :: 0 <= k < |arm.items| ==> ArmedAtom(arm.items[k].atom)
  }

  predicate ArmedAtom(atom: Atom)
    decreases atom
  {
    atom.Group? ==> ArmedAlt(atom.body)
  }
}
