/**
 The fold over the model the variant parses to: marked rules are collapsed to their
 text, hoisted runs stay raw text or are parsed again.
 */
module Folding {
  import opened Wrappers
  import opened Grammars
  import opened Reachability
  import opened Reduction
  import opened ReducedText
  import opened Purging
  import opened PoisonRuns
  import opened Rewrites
  import opened Hoisting

  /** What the fold reads: the marks, the run rules, and the elements a run's text is parsed into again. */
  datatype Fold = Fold(
    red: Reducer,
    marks: set<string>,
    runs: map<string, RunSpec>,
    reparse: (string, string) -> seq<Node>)

  /** What a hoisted run contributes: nothing, its raw text, or its elements' values when it holds poison. */
  function Splice(fold: Fold, spec: RunSpec, text: string): seq<Value> {
    if text == "" then []
    else if Free(text, spec.poison) then [Text(text)]
    else NodesChannel(fold.red, fold.reparse(spec.element, text))
  }

  /** An empty run contributes no argument at all, a poison-free one its text as one argument, any other its elements' values. */
  lemma SpliceExactly(fold: Fold, spec: RunSpec, text: string)
    ensures text == "" ==> Splice(fold, spec, text) == []
    ensures text != "" && (forall c :: c in text ==> c !in spec.poison) ==> Splice(fold, spec, text) == [Text(text)]
    ensures (exists c :: c in text && c in spec.poison) ==>
              Splice(fold, spec, text) == NodesChannel(fold.red, fold.reparse(spec.element, text))
  {
  }

  function FoldValue(fold: Fold, name: string, pick: Pick): Value
    decreases pick
  {
    if name in fold.marks then fold.red.Apply(fold.red.Body(name), [Text(RunsText(pick.runs))], RunsText(pick.runs))
    else fold.red.Apply(fold.red.Body(name), RunsFolded(fold, pick.runs), RunsYield(fold, pick.runs))
  }

  function RunsFolded(fold: Fold, runs: seq<Run>): seq<Value>
    decreases runs
  {
    if runs == [] then [] else RunsFolded(fold, runs[..|runs| - 1]) + NodesFolded(fold, runs[|runs| - 1].nodes)
  }

  function NodesFolded(fold: Fold, nodes: seq<Node>): seq<Value>
    decreases nodes
  {
    if nodes == [] then [] else NodesFolded(fold, nodes[..|nodes| - 1]) + NodeFolded(fold, nodes[|nodes| - 1])
  }

  function NodeFolded(fold: Fold, node: Node): seq<Value>
    decreases node
  {
    match node
    case Leaf(text) => if fold.red.keepRaw then Letters(text) else []
    case RuleNode(name, pick) =>
      if name in fold.runs then Splice(fold, fold.runs[name], RunsText(pick.runs))
      else if name in fold.red.dropped then []
      else [FoldValue(fold, name, pick)]
    case GroupNode(pick) => RunsFolded(fold, pick.runs)
  }

  /** The text a yielding rule gets: a mark or a run is one text, dropped rules inside it or not. */
  function RunsYield(fold: Fold, runs: seq<Run>): string
    decreases runs
  {
    if runs == [] then "" else RunsYield(fold, runs[..|runs| - 1]) + NodesYield(fold, runs[|runs| - 1].nodes)
  }

  function NodesYield(fold: Fold, nodes: seq<Node>): string
    decreases nodes
  {
    if nodes == [] then "" else NodesYield(fold, nodes[..|nodes| - 1]) + NodeYield(fold, nodes[|nodes| - 1])
  }

  function NodeYield(fold: Fold, node: Node): string
    decreases node
  {
    match node
    case Leaf(text) => text
    case RuleNode(name, pick) =>
      if name in fold.red.dropped then ""
      else if name in fold.marks || name in fold.runs then RunsText(pick.runs)
      else RunsYield(fold, pick.runs)
    case GroupNode(pick) => RunsYield(fold, pick.runs)
  }

  // ---------- The marks ----------

  /** A body whose value is the same whatever it is applied to. */
  ghost predicate ChannelFree(red: Reducer, body: Body) {
    forall a, b, kept, other :: red.Apply(body, a, kept) == red.Apply(body, b, other)
  }

  /** What the derivation marks: dropped rules, text-equivalent rules, and bodies that read nothing. */
  ghost predicate Markable(an: Analysis, name: string) {
    name in an.reducer.dropped || an.Equiv(name) || ChannelFree(an.reducer, an.reducer.Body(name))
  }

  ghost predicate AllMarkable(an: Analysis, marks: set<string>) {
    forall m :: m in marks ==> Markable(an, m)
  }

  /** No mark loses text. */
  ghost predicate FitMarks(rules: Rules, red: Reducer, marks: set<string>) {
    forall m :: m in marks && m !in red.dropped ==> LosesNothing(rules, red, m)
  }

  // A marked rule that loses no text has the same value over the text as over its channel.
  lemma MarkedRuleKeepsValue(an: Analysis, name: string, pick: Pick)
    requires Markable(an, name) && LosesNothing(an.rules, an.reducer, name)
    requires name !in an.reducer.dropped && name in an.rules && DerivesPick(an.rules, an.rules[name], pick)
    ensures an.reducer.Apply(an.reducer.Body(name), [Text(RunsText(pick.runs))], RunsText(pick.runs))
         == ValueOf(an.reducer, name, pick)
    ensures RunsKept(an.reducer, pick.runs) == RunsText(pick.runs)
  {
    KeptIsTextExactly(an.rules, an.reducer, name);
    if an.Equiv(name) {
      EquivIsKept(an, name, pick);
      JoinedOne(an.reducer, Text(RunsText(pick.runs)));
      var k: nat :| an.EquivWithin(name, k);
      ConstantIsText(an, name, k, pick);
    }
  }

  lemma ConstantIsText(an: Analysis, name: string, k: nat, pick: Pick)
    requires an.EquivWithin(name, k) && name in an.rules && DerivesPick(an.rules, an.rules[name], pick)
    ensures an.reducer.Body(name).Constant? ==> an.reducer.Body(name).text == RunsText(pick.runs)
  {
    if an.reducer.Body(name).Constant? {
      LiteralTree(an.rules, an.reducer, an.rules[name], pick);
    }
  }

  // ---------- Collapsing marked rules to their text ----------

  ghost predicate Collapses(fold: Fold, an: Analysis) {
    fold.red == an.reducer && fold.runs == map[] && AllMarkable(an, fold.marks)
  }

  /** Collapsing fit marks changes no value, no channel and no yielded text, anywhere in any tree. */
  lemma {:induction false} CollapseKeepsNode(fold: Fold, an: Analysis, atom: Atom, node: Node)
    requires Collapses(fold, an) && FitMarks(an.rules, an.reducer, fold.marks) && Derives(an.rules, atom, node)
    ensures NodeFolded(fold, node) == NodeChannel(fold.red, node) && NodeYield(fold, node) == NodeKept(fold.red, node)
    ensures node.RuleNode? && node.name !in fold.red.dropped ==>
              FoldValue(fold, node.name, node.pick) == ValueOf(fold.red, node.name, node.pick)
    decreases node
  {
    match atom {
      case RuleRef(name) =>
        if name in fold.marks && name !in fold.red.dropped {
          MarkedRuleKeepsValue(an, name, node.pick);
        } else {
          var items := an.rules[name].arms[node.pick.arm].items;
          CollapseKeepsRuns(fold, an, items, node.pick.runs, |node.pick.runs|);
          assert node.pick.runs[..|node.pick.runs|] == node.pick.runs;
        }
      case Group(body) =>
        CollapseKeepsRuns(fold, an, body.arms[node.pick.arm].items, node.pick.runs, |node.pick.runs|);
        assert node.pick.runs[..|node.pick.runs|] == node.pick.runs;
      case _ =>
    }
  }

  lemma {:induction false} CollapseKeepsRuns(fold: Fold, an: Analysis, items: seq<Item>, runs: seq<Run>, n: nat)
    requires Collapses(fold, an) && FitMarks(an.rules, an.reducer, fold.marks)
    requires DerivesArm(an.rules, items, runs) && n <= |runs|
    ensures RunsFolded(fold, runs[..n]) == RunsChannel(fold.red, runs[..n])
    ensures RunsYield(fold, runs[..n]) == RunsKept(fold.red, runs[..n])
    decreases runs, n
  {
    if n > 0 {
      CollapseKeepsRuns(fold, an, items, runs, n - 1);
      assert DerivesRun(an.rules, items[n - 1], runs[n - 1]);
      var nodes := runs[n - 1].nodes;
      CollapseKeepsNodes(fold, an, items[n - 1].atom, nodes, |nodes|);
      assert nodes[..|nodes|] == nodes && runs[..n][..n - 1] == runs[..n - 1];
    }
  }

  lemma {:induction false} CollapseKeepsNodes(fold: Fold, an: Analysis, atom: Atom, nodes: seq<Node>, n: nat)
    requires Collapses(fold, an) && FitMarks(an.rules, an.reducer, fold.marks)
    requires n <= |nodes| && forall k :: 0 <= k < |nodes| ==> Derives(an.rules, atom, nodes[k])
    ensures NodesFolded(fold, nodes[..n]) == NodesChannel(fold.red, nodes[..n])
    ensures NodesYield(fold, nodes[..n]) == NodesKept(fold.red, nodes[..n])
    decreases nodes, n
  {
    if n > 0 {
      CollapseKeepsNodes(fold, an, atom, nodes, n - 1);
      CollapseKeepsNode(fold, an, atom, nodes[n - 1]);
      assert nodes[..n][..n - 1] == nodes[..n - 1];
    }
  }

  /** Collapsing the marks below a rule's tree shows nowhere: not in its value, its channel or its yielded text. */
  ghost predicate CollapseUnseen(fold: Fold, name: string, pick: Pick) {
    var node := RuleNode(name, pick);
    && NodeYield(fold, node) == NodeKept(fold.red, node)
    && NodeFolded(fold, node) == NodeChannel(fold.red, node)
    && (name !in fold.red.dropped ==> FoldValue(fold, name, pick) == ValueOf(fold.red, name, pick))
  }

  /**
   On every grammar and with any reach table, collapsing the marks shows on no tree
   exactly when no mark loses text.
   */
  lemma CollapseKeepsExactly(fold: Fold, an: Analysis)
    requires Collapses(fold, an)
    ensures (forall name, pick :: name in an.rules && DerivesPick(an.rules, an.rules[name], pick) ==>
               CollapseUnseen(fold, name, pick))
       <==> FitMarks(an.rules, an.reducer, fold.marks)
  {
    if FitMarks(an.rules, an.reducer, fold.marks) {
      forall name, pick | name in an.rules && DerivesPick(an.rules, an.rules[name], pick)
        ensures CollapseUnseen(fold, name, pick)
      {
        assert Derives(an.rules, RuleRef(name), RuleNode(name, pick));
        CollapseKeepsNode(fold, an, RuleRef(name), RuleNode(name, pick));
      }
    } else {
      var m :| m in fold.marks && m !in an.reducer.dropped && !LosesNothing(an.rules, an.reducer, m);
      var pick := LosingTree(an.rules, an.reducer, m);
      assert NodeYield(fold, RuleNode(m, pick)) == RunsText(pick.runs);
      assert !CollapseUnseen(fold, m, pick);
    }
  }

  function Collapsed(red: Reducer, marks: set<string>): Fold { Fold(red, marks, map[], (element, text) => []) }

  /** Marking the rule a partial reach table calls text-equivalent gives back the text it loses. */
  lemma CyclicMarkShows()
    ensures var an := Analysis(RING_RULES, RING_REDUCER, ReachMap(RING, ["A", "B", "C", "D"], map[]));
            Collapses(Collapsed(RING_REDUCER, {"C"}), an) && DerivesPick(RING_RULES, RING_RULES["C"], RING_PICK)
    ensures ValueOf(RING_REDUCER, "C", RING_PICK) == Text("")
    ensures FoldValue(Collapsed(RING_REDUCER, {"C"}), "C", RING_PICK) == Text("d")
  {
    CyclicVerdictLosesText();
    hide ReachMap, DerivesPick, RunsText, ValueOf;
  }

  // S yields; M reads nothing and is marked; below M a dropped rule spells "d".
  const NOTE_RULES: Rules := map[
    "S" := Alternation([OneRef("M")]),
    "M" := Alternation([OneRef("D")]),
    "D" := Alternation([Sequence([Item(Literal("d"), UNIT)])])]

  const NOTE_REDUCER := Reducer({"D"}, false, map["M" := Constant("m")], (tag, channel, kept) => Built(0), id => "")

  const NOTE_PICK := Pick(0, [Once(RuleNode("M", Pick(0, [Once(RuleNode("D", Pick(0, [Once(Leaf("d"))])))])))])

  /** A marked body that reads nothing, above a dropped rule that spells something, gives that text back to a yielding rule. */
  lemma MarkAboveDropReturnsText(reach: Table)
    ensures DerivesPick(NOTE_RULES, NOTE_RULES["S"], NOTE_PICK)
    ensures Collapses(Collapsed(NOTE_REDUCER, {"M"}), Analysis(NOTE_RULES, NOTE_REDUCER, reach))
    ensures ValueOf(NOTE_REDUCER, "S", NOTE_PICK) == Text("")
    ensures FoldValue(Collapsed(NOTE_REDUCER, {"M"}), "S", NOTE_PICK) == Text("d")
  {
    var leaf := Leaf("d");
    var d := RuleNode("D", Pick(0, [Once(leaf)]));
    var m := RuleNode("M", Pick(0, [Once(d)]));
    assert NOTE_PICK == Pick(0, [Once(m)]);
    OneRunDerives(NOTE_RULES, Literal("d"), leaf);
    OneRun(NOTE_REDUCER, leaf);
    OneRunDerives(NOTE_RULES, RuleRef("D"), d);
    OneRun(NOTE_REDUCER, d);
    OneRunDerives(NOTE_RULES, RuleRef("M"), m);
    OneRun(NOTE_REDUCER, m);
    OneRunFolds(Collapsed(NOTE_REDUCER, {"M"}), m);
  }

  lemma OneNodeFolds(fold: Fold, node: Node)
    ensures NodesYield(fold, [node]) == NodeYield(fold, node) && NodesFolded(fold, [node]) == NodeFolded(fold, node)
  {
    hide NodeYield, NodeFolded;
    assert [node][..0] == [];
    assert NodesYield(fold, []) == "" && NodesFolded(fold, []) == [];
    assert NodesYield(fold, [node]) == NodesYield(fold, []) + NodeYield(fold, node);
    assert NodesFolded(fold, [node]) == NodesFolded(fold, []) + NodeFolded(fold, node);
  }

  lemma OneRunFolds(fold: Fold, node: Node)
    ensures RunsYield(fold, [Once(node)]) == NodesYield(fold, [node]) == NodeYield(fold, node)
    ensures RunsFolded(fold, [Once(node)]) == NodesFolded(fold, [node]) == NodeFolded(fold, node)
  {
    hide NodeYield, NodeFolded, NodesYield, NodesFolded;
    OneNodeFolds(fold, node);
    assert [Once(node)][..0] == [];
    assert RunsYield(fold, []) == "" && RunsFolded(fold, []) == [];
    assert RunsYield(fold, [Once(node)]) == RunsYield(fold, []) + NodesYield(fold, [node]);
    assert RunsFolded(fold, [Once(node)]) == RunsFolded(fold, []) + NodesFolded(fold, [node]);
  }
}
