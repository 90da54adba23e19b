/**
 The reduce derivation end to end: folding the tree a variant parses to gives the value
 the original tree has.
 */
module FoldedVariants {
  import opened Wrappers
  import opened Grammars
  import opened Liveness
  import opened Reduction
  import opened ReducedText
  import opened Purging
  import opened PoisonRuns
  import opened Rewrites
  import opened Hoisting
  import opened Folding

  /** One derivation: the analysed grammar, the plan, the variant it led to, and the fold over it. */
  datatype Derivation = Derivation(an: Analysis, plan: Plan, variant: Rules, fold: Fold) {
    /** The variant is the plan's; the fold has its runs, and marks only rules the plan keeps whole. */
    ghost predicate Derived() {
      && plan.IsVariant(an.rules, fold.runs, variant) && Hoistable(an.rules, plan)
      && fold.red == an.reducer && plan.dropped == an.reducer.dropped && fold.runs.Keys !! an.reducer.dropped
      && fold.marks <= plan.kept && AllMarkable(an, fold.marks)
    }

    /** No run hoisted from an arm that derives something loses text. */
    ghost predicate FitRuns() {
      forall name, a :: name in an.rules && !plan.Keeps(name) && 0 <= a < |an.rules[name].arms|
                        && LiveArm(an.rules, an.rules[name].arms[a].items) ==>
        FitItems(an.rules[name].arms[a].items)
    }

    ghost predicate FitItems(items: seq<Item>) {
      forall i :: 0 <= i < |items| && plan.Hoists(items[i]) ==> LosesNothing(an.rules, an.reducer, items[i].atom.name)
    }

    /** What an item contributes to a channel when its hoisted run is spliced. */
    function SplicedRun(hoist: bool, item: Item, run: Run): seq<Value> {
      if hoist && plan.Hoists(item)
      then Splice(fold, RunSpec(plan.licence[item.atom.name], item.atom.name), NodesText(run.nodes))
      else NodesChannel(fold.red, run.nodes)
    }

    function SplicedRuns(hoist: bool, items: seq<Item>, runs: seq<Run>): seq<Value>
      requires |items| == |runs|
    {
      if runs == [] then []
      else
        var last := |runs| - 1;
        SplicedRuns(hoist, items[..last], runs[..last]) + SplicedRun(hoist, items[last], runs[last])
    }

    /** The rule's own body gives the same value with its runs spliced. */
    ghost predicate SpliceUnseen(name: string, pick: Pick)
      requires name in an.rules && DerivesPick(an.rules, an.rules[name], pick)
    {
      assert DerivesArm(an.rules, an.rules[name].arms[pick.arm].items, pick.runs);
      an.reducer.Apply(an.reducer.Body(name), SplicedRuns(true, an.rules[name].arms[pick.arm].items, pick.runs),
                       RunsKept(an.reducer, pick.runs))
      == ValueOf(an.reducer, name, pick)
    }

    /** No body of a rule whose runs are hoisted sees the splice. */
    ghost predicate NoBodySees() {
      forall name, pick :: name in an.rules && !plan.Keeps(name) && DerivesPick(an.rules, an.rules[name], pick) ==>
        SpliceUnseen(name, pick)
    }

    /** A tree of the rule, and its image in the variant. */
    ghost predicate Image(name: string, node: Node, image: Node) {
      && Derives(an.rules, RuleRef(name), node)
      && NodeMirrors(an.rules, variant, RuleRef(name), RuleRef(name), node, image)
    }

    /** What was derived shows nowhere: every image yields what its tree keeps, and folds to its value. */
    ghost predicate Unseen() {
      forall name, node, image :: Image(name, node, image) ==> UnseenAt(name, node, image)
    }

    ghost predicate UnseenAt(name: string, node: Node, image: Node)
      requires node.RuleNode? && image.RuleNode?
    {
      && NodeYield(fold, image) == NodeKept(an.reducer, node)
      && (name !in an.reducer.dropped ==> FoldValue(fold, name, image.pick) == ValueOf(an.reducer, name, node.pick))
    }

    /** No mark and no run loses text, and no body sees its own runs spliced. */
    ghost predicate Fits() {
      FitMarks(an.rules, an.reducer, fold.marks) && FitRuns() && NoBodySees()
    }
  }

  // What is not hoisted is spliced as it is.
  lemma {:induction false} NothingSpliced(d: Derivation, items: seq<Item>, runs: seq<Run>)
    requires |items| == |runs|
    ensures d.SplicedRuns(false, items, runs) == RunsChannel(d.fold.red, runs)
    decreases |runs|
  {
    if runs != [] {
      NothingSpliced(d, items[..|runs| - 1], runs[..|runs| - 1]);
    }
  }

  function Images(plan: Plan, hoist: bool, items: seq<Item>): seq<Item> {
    if hoist then plan.ReplacedItems(items) else items
  }

  /** The items come from a body of the grammar: their runs are registered, and they name no run rule. */
  ghost predicate Sourced(d: Derivation, hoist: bool, items: seq<Item>) {
    && (hoist ==> d.plan.ArmRuns(items) <= d.fold.runs.Keys)
    && forall i :: 0 <= i < |items| ==> AtomRefs(items[i].atom) !! d.fold.runs.Keys
  }

  lemma RuleIsSourced(d: Derivation, name: string, a: nat)
    requires d.Derived() && name in d.an.rules && a < |d.an.rules[name].arms|
    ensures Sourced(d, !d.plan.Keeps(name), d.an.rules[name].arms[a].items)
    ensures name in d.variant && name !in d.fold.runs && a < |d.variant[name].arms|
    ensures d.variant[name].arms[a].items == Images(d.plan, !d.plan.Keeps(name), d.an.rules[name].arms[a].items)
  {
    var rules := d.an.rules;
    var items := rules[name].arms[a].items;
    forall i, r | 0 <= i < |items| && r in AtomRefs(items[i].atom) ensures r in AltRefs(rules[name]) {
      assert r in ArmRefs(rules[name].arms[a]);
    }
    if !d.plan.Keeps(name) {
      forall r | r in d.plan.ArmRuns(items) ensures r in d.fold.runs {
        assert r in d.plan.BodyRuns(rules[name].arms);
      }
    }
  }

  lemma GroupIsSourced(d: Derivation, body: Alternation, a: nat)
    requires AltRefs(body) !! d.fold.runs.Keys && a < |body.arms|
    ensures Sourced(d, false, body.arms[a].items)
  {
    var items := body.arms[a].items;
    forall i, r | 0 <= i < |items| && r in AtomRefs(items[i].atom) ensures r in AltRefs(body) {
      assert r in ArmRefs(body.arms[a]);
    }
  }

  /** A tree of an arm's items, and its image. */
  ghost predicate ArmImage(d: Derivation, hoist: bool, items: seq<Item>, runs: seq<Run>, images: seq<Run>) {
    && Sourced(d, hoist, items) && DerivesArm(d.an.rules, items, runs)
    && RunsMirror(d.an.rules, d.variant, items, Images(d.plan, hoist, items), runs, images)
  }

  lemma RunOfArm(d: Derivation, hoist: bool, items: seq<Item>, runs: seq<Run>, images: seq<Run>, i: nat)
    requires ArmImage(d, hoist, items, runs, images) && i < |runs|
    ensures |items| == |runs| == |images|
    ensures DerivesRun(d.an.rules, items[i], runs[i])
    ensures RunMirrors(d.an.rules, d.variant, items[i], if hoist then d.plan.Replaced(items[i]) else items[i], runs[i], images[i])
  {
  }

  // The run rule of an item hoisted.
  lemma HoistedSpec(d: Derivation, items: seq<Item>, i: nat)
    requires d.Derived() && Sourced(d, true, items) && i < |items| && d.plan.Hoists(items[i])
    ensures var e := items[i].atom.name;
            && RunName(e) in d.fold.runs && d.fold.runs[RunName(e)] == RunSpec(d.plan.licence[e], e)
            && Hoisted(d.an.rules, d.variant, items[i], d.plan.Replaced(items[i]))
  {
    var e := items[i].atom.name;
    assert RunName(e) in d.plan.ArmRuns(items);
    RunNameIsInjective(d.fold.runs[RunName(e)].element, e);
    SameNamesDefined(d, e);
    assert e in AtomRefs(items[i].atom);
  }

  lemma SameNamesDefined(d: Derivation, name: string)
    requires d.Derived() && name !in d.fold.runs
    ensures SameDefined(d.an.rules, d.variant, name)
  {
  }

  // ---------- The fold, part by part ----------

  ghost predicate Premise(d: Derivation) {
    d.Derived() && (d.Fits() || d.Unseen())
  }

  lemma {:induction false} NodeFolds(d: Derivation, atom: Atom, node: Node, image: Node)
    requires Premise(d) && AtomRefs(atom) !! d.fold.runs.Keys
    requires Derives(d.an.rules, atom, node) && NodeMirrors(d.an.rules, d.variant, atom, atom, node, image)
    ensures NodeFolded(d.fold, image) == NodeChannel(d.fold.red, node)
    ensures NodeYield(d.fold, image) == NodeKept(d.fold.red, node)
    decreases node
  {
    match atom {
      case RuleRef(name) =>
        assert name in AtomRefs(atom) && d.Image(name, node, image);
        if d.Unseen() {
          assert d.UnseenAt(name, node, image);
        } else {
          RuleFolds(d, name, node, image);
        }
      case Group(body) =>
        GroupIsSourced(d, body, node.pick.arm);
        var items := body.arms[node.pick.arm].items;
        ArmFolds(d, false, items, node.pick.runs, image.pick.runs);
        NothingSpliced(d, items, node.pick.runs);
      case _ =>
    }
  }

  lemma {:induction false} RuleFolds(d: Derivation, name: string, node: Node, image: Node)
    requires d.Derived() && d.Fits() && d.Image(name, node, image)
    ensures d.UnseenAt(name, node, image)
    decreases node, 0
  {
    if name !in d.fold.red.dropped {
      var rules, red := d.an.rules, d.fold.red;
      MirrorSpells(rules, d.variant, RuleRef(name), RuleRef(name), node, image);
      assert DerivesPick(rules, rules[name], node.pick) && PickMirrors(rules, d.variant, rules[name], d.variant[name], node.pick, image.pick);
      RuleIsSourced(d, name, node.pick.arm);
      if name in d.fold.marks {
        MarkedRuleKeepsValue(d.an, name, node.pick);
      } else {
        var hoist := !d.plan.Keeps(name);
        var items := rules[name].arms[node.pick.arm].items;
        assert DerivesArm(rules, items, node.pick.runs);
        assert LiveArm(rules, items);
        ArmFolds(d, hoist, items, node.pick.runs, image.pick.runs);
        if hoist {
          assert d.SpliceUnseen(name, node.pick);
        } else {
          NothingSpliced(d, items, node.pick.runs);
        }
      }
    }
  }

  lemma {:induction false} ArmFolds(d: Derivation, hoist: bool, items: seq<Item>, runs: seq<Run>, images: seq<Run>)
    requires Premise(d) && ArmImage(d, hoist, items, runs, images)
    requires hoist ==> d.FitItems(items)
    ensures |items| == |runs| && RunsFolded(d.fold, images) == d.SplicedRuns(hoist, items, runs)
    ensures RunsYield(d.fold, images) == RunsKept(d.fold.red, runs)
    decreases runs, |runs| + 1
  {
    RunsFold(d, hoist, items, runs, images, |runs|);
    assert runs[..|runs|] == runs && images[..|runs|] == images && items[..|runs|] == items;
  }

  lemma {:induction false} RunsFold(d: Derivation, hoist: bool, items: seq<Item>, runs: seq<Run>, images: seq<Run>, n: nat)
    requires Premise(d) && ArmImage(d, hoist, items, runs, images) && n <= |runs| == |images| == |items|
    requires hoist ==> d.FitItems(items)
    ensures RunsFolded(d.fold, images[..n]) == d.SplicedRuns(hoist, items[..n], runs[..n])
    ensures RunsYield(d.fold, images[..n]) == RunsKept(d.fold.red, runs[..n])
    decreases runs, n
  {
    hide *;
    if n == 0 {
      NoRunKeepsNothing(d.fold, runs, images);
      NoRunSplices(d, hoist, items, runs);
    } else {
      RunsFold(d, hoist, items, runs, images, n - 1);
      RunFolds(d, hoist, items, runs, images, n - 1);
      OneMoreRun(d, hoist, items, runs, images, n);
    }
  }

  lemma OneMoreRun(d: Derivation, hoist: bool, items: seq<Item>, runs: seq<Run>, images: seq<Run>, n: nat)
    requires 0 < n <= |runs| == |images| == |items|
    ensures RunsKept(d.fold.red, runs[..n]) == RunsKept(d.fold.red, runs[..n - 1]) + NodesKept(d.fold.red, runs[n - 1].nodes)
    ensures RunsYield(d.fold, images[..n]) == RunsYield(d.fold, images[..n - 1]) + NodesYield(d.fold, images[n - 1].nodes)
    ensures RunsFolded(d.fold, images[..n]) == RunsFolded(d.fold, images[..n - 1]) + NodesFolded(d.fold, images[n - 1].nodes)
    ensures d.SplicedRuns(hoist, items[..n], runs[..n])
         == d.SplicedRuns(hoist, items[..n - 1], runs[..n - 1]) + d.SplicedRun(hoist, items[n - 1], runs[n - 1])
  {
    hide NodesKept, NodesYield, NodesFolded, Derivation.SplicedRun;
    assert runs[..n][..n - 1] == runs[..n - 1] && images[..n][..n - 1] == images[..n - 1];
    assert items[..n][..n - 1] == items[..n - 1];
  }

  lemma {:induction false} RunFolds(d: Derivation, hoist: bool, items: seq<Item>, runs: seq<Run>, images: seq<Run>, i: nat)
    requires Premise(d) && ArmImage(d, hoist, items, runs, images) && i < |runs| == |images| == |items|
    requires hoist ==> d.FitItems(items)
    ensures NodesFolded(d.fold, images[i].nodes) == d.SplicedRun(hoist, items[i], runs[i])
    ensures NodesYield(d.fold, images[i].nodes) == NodesKept(d.fold.red, runs[i].nodes)
    decreases runs, 0
  {
    RunOfArm(d, hoist, items, runs, images, i);
    if hoist && d.plan.Hoists(items[i]) {
      HoistedRunFolds(d, items, i, runs[i], images[i]);
      ElementsKept(d.an.rules, d.fold.red, items[i].atom.name, runs[i]);
    } else {
      NodesFold(d, items[i].atom, runs[i].nodes, images[i].nodes);
    }
  }

  // A hoisted run is spliced, and yields all its text.
  lemma HoistedRunFolds(d: Derivation, items: seq<Item>, i: nat, run: Run, image: Run)
    requires d.Derived() && Sourced(d, true, items) && i < |items| && d.plan.Hoists(items[i])
    requires RunMirrors(d.an.rules, d.variant, items[i], d.plan.Replaced(items[i]), run, image)
    ensures NodesFolded(d.fold, image.nodes) == d.SplicedRun(true, items[i], run)
    ensures NodesYield(d.fold, image.nodes) == NodesText(run.nodes)
  {
    HoistedSpec(d, items, i);
    var atom := items[i].atom;
    var node := image.nodes[0];
    var inner := node.pick.runs[0];
    assert image.nodes == [node] && node.pick.runs == [inner];
    NodesSpell(d.an.rules, d.variant, atom, atom, run.nodes, inner.nodes);
    WrappedSpells(node, inner);
    OneRunFolds(d.fold, node);
  }

  lemma ElementsKept(rules: Rules, red: Reducer, e: string, run: Run)
    requires LosesNothing(rules, red, e) && e !in red.dropped
    requires forall k :: 0 <= k < |run.nodes| ==> Derives(rules, RuleRef(e), run.nodes[k])
    ensures NodesKept(red, run.nodes) == NodesText(run.nodes)
  {
    KeptNodes(rules, red, RuleRef(e), run.nodes, |run.nodes|);
    assert run.nodes[..|run.nodes|] == run.nodes;
  }

  lemma {:induction false} NodesFold(d: Derivation, atom: Atom, nodes: seq<Node>, images: seq<Node>)
    requires Premise(d) && AtomRefs(atom) !! d.fold.runs.Keys
    requires forall k :: 0 <= k < |nodes| ==> Derives(d.an.rules, atom, nodes[k])
    requires NodesMirror(d.an.rules, d.variant, atom, atom, nodes, images)
    ensures NodesFolded(d.fold, images) == NodesChannel(d.fold.red, nodes)
    ensures NodesYield(d.fold, images) == NodesKept(d.fold.red, nodes)
    decreases nodes
  {
    if nodes != [] {
      var last := |nodes| - 1;
      NodesFold(d, atom, nodes[..last], images[..last]);
      NodeFolds(d, atom, nodes[last], images[last]);
    }
  }

  // ---------- Exactly when the derivation is unseen ----------

  /** Every tree of a rule has an image the variant derives, spelling the same. */
  lemma ImageOf(d: Derivation, name: string, node: Node) returns (image: Node)
    requires d.Derived() && Derives(d.an.rules, RuleRef(name), node)
    ensures d.Image(name, node, image) && Derives(d.variant, RuleRef(name), image) && Spelling(image) == Spelling(node)
  {
    VariantRewrites(d.plan, d.an.rules, d.fold.runs, d.variant);
    image := NodeTo(d.an.rules, d.variant, RuleRef(name), RuleRef(name), node);
  }

  /** And every tree the variant derives for a rule of the grammar is the image of one. */
  lemma TreeOf(d: Derivation, name: string, image: Node) returns (node: Node)
    requires d.Derived() && name in d.an.rules && Derives(d.variant, RuleRef(name), image)
    ensures d.Image(name, node, image) && Spelling(image) == Spelling(node)
  {
    VariantRewrites(d.plan, d.an.rules, d.fold.runs, d.variant);
    node := NodeFrom(d.an.rules, d.variant, RuleRef(name), RuleRef(name), image);
  }

  // A tree of a rule, with an image whose runs mirror its own.
  lemma ImageOfPick(d: Derivation, name: string, pick: Pick) returns (image: Pick)
    requires d.Derived() && name in d.an.rules && DerivesPick(d.an.rules, d.an.rules[name], pick)
    ensures d.Image(name, RuleNode(name, pick), RuleNode(name, image)) && RunsText(image.runs) == RunsText(pick.runs)
    ensures d.Unseen() ==> d.UnseenAt(name, RuleNode(name, pick), RuleNode(name, image))
    ensures pick.arm < |d.an.rules[name].arms| && name !in d.fold.runs
    ensures var hoist, items := !d.plan.Keeps(name), d.an.rules[name].arms[pick.arm].items;
            ArmImage(d, hoist, items, pick.runs, image.runs)
  {
    var node := RuleNode(name, pick);
    assert Derives(d.an.rules, RuleRef(name), node);
    var r := ImageOf(d, name, node);
    image := r.pick;
    assert r == RuleNode(name, image);
    assert PickMirrors(d.an.rules, d.variant, d.an.rules[name], d.variant[name], pick, image);
    RuleIsSourced(d, name, pick.arm);
  }

  lemma UnseenMarksFit(d: Derivation)
    requires d.Derived() && d.Unseen()
    ensures FitMarks(d.an.rules, d.an.reducer, d.fold.marks)
  {
    forall m | m in d.fold.marks && m !in d.an.reducer.dropped ensures LosesNothing(d.an.rules, d.an.reducer, m) {
      if !LosesNothing(d.an.rules, d.an.reducer, m) {
        var pick := LosingTree(d.an.rules, d.an.reducer, m);
        var image := ImageOfPick(d, m, pick);
      }
    }
  }

  // What a run's image yields is never less than what the run keeps, and is all its text where it is hoisted.
  lemma RunYieldsMore(d: Derivation, items: seq<Item>, runs: seq<Run>, images: seq<Run>, i: nat)
    requires d.Derived() && d.Unseen() && ArmImage(d, true, items, runs, images) && i < |runs| == |images| == |items|
    ensures |NodesKept(d.fold.red, runs[i].nodes)| <= |NodesYield(d.fold, images[i].nodes)|
    ensures d.plan.Hoists(items[i]) ==> NodesYield(d.fold, images[i].nodes) == NodesText(runs[i].nodes)
  {
    RunOfArm(d, true, items, runs, images, i);
    if d.plan.Hoists(items[i]) {
      HoistedRunFolds(d, items, i, runs[i], images[i]);
      NodesAtMost(d.fold.red, runs[i].nodes);
    } else {
      NodesFold(d, items[i].atom, runs[i].nodes, images[i].nodes);
    }
  }

  lemma {:induction false} YieldsMore(d: Derivation, items: seq<Item>, runs: seq<Run>, images: seq<Run>, i: nat, n: nat)
    requires d.Derived() && d.Unseen() && ArmImage(d, true, items, runs, images) && n <= |runs| == |images| == |items|
    ensures |RunsKept(d.fold.red, runs[..n])| <= |RunsYield(d.fold, images[..n])|
    ensures i < n && d.plan.Hoists(items[i]) && |NodesKept(d.fold.red, runs[i].nodes)| < |NodesText(runs[i].nodes)| ==>
              |RunsKept(d.fold.red, runs[..n])| < |RunsYield(d.fold, images[..n])|
    decreases n
  {
    hide *;
    if n == 0 {
      NoRunKeepsNothing(d.fold, runs, images);
    } else {
      YieldsMore(d, items, runs, images, i, n - 1);
      RunYieldsMore(d, items, runs, images, n - 1);
      OneMoreRun(d, true, items, runs, images, n);
    }
  }

  lemma NoRunKeepsNothing(fold: Fold, runs: seq<Run>, images: seq<Run>)
    ensures RunsKept(fold.red, runs[..0]) == RunsYield(fold, images[..0]) == "" && RunsFolded(fold, images[..0]) == []
  {
  }

  lemma NoRunSplices(d: Derivation, hoist: bool, items: seq<Item>, runs: seq<Run>)
    ensures d.SplicedRuns(hoist, items[..0], runs[..0]) == []
  {
  }

  // A live arm has a tree whose run of a starred item loses text, if the item's rule has one that does.
  lemma LosingArm(rules: Rules, red: Reducer, items: seq<Item>, i: nat) returns (runs: seq<Run>)
    requires LiveArm(rules, items) && i < |items| && items[i].atom.RuleRef? && items[i].quantifier == STAR
    requires items[i].atom.name !in red.dropped && !LosesNothing(rules, red, items[i].atom.name)
    ensures DerivesArm(rules, items, runs) && |NodesKept(red, runs[i].nodes)| < |NodesText(runs[i].nodes)|
  {
    var e := items[i].atom.name;
    var lost := LosingTree(rules, red, e);
    var node := RuleNode(e, lost);
    assert Derives(rules, RuleRef(e), node);
    OneNode(red, node);
    runs := ArmWith(rules, items, i, node);
  }

  lemma UnseenRunFits(d: Derivation, name: string, a: nat, i: nat)
    requires d.Derived() && d.Unseen() && name in d.an.rules && !d.plan.Keeps(name) && a < |d.an.rules[name].arms|
    requires var items := d.an.rules[name].arms[a].items;
             LiveArm(d.an.rules, items) && i < |items| && d.plan.Hoists(items[i])
    ensures LosesNothing(d.an.rules, d.an.reducer, d.an.rules[name].arms[a].items[i].atom.name)
  {
    var rules, red := d.an.rules, d.an.reducer;
    var items := rules[name].arms[a].items;
    if !LosesNothing(rules, red, items[i].atom.name) {
      var runs := LosingArm(rules, red, items, i);
      var pick := Pick(a, runs);
      assert DerivesPick(rules, rules[name], pick);
      SeenRun(d, name, pick, i);
    }
  }

  lemma SeenRun(d: Derivation, name: string, pick: Pick, i: nat)
    requires d.Derived() && d.Unseen() && name in d.an.rules && !d.plan.Keeps(name)
    requires DerivesPick(d.an.rules, d.an.rules[name], pick) && i < |pick.runs|
    requires i < |d.an.rules[name].arms[pick.arm].items| && d.plan.Hoists(d.an.rules[name].arms[pick.arm].items[i])
    ensures |NodesKept(d.an.reducer, pick.runs[i].nodes)| >= |NodesText(pick.runs[i].nodes)|
  {
    var image := ImageOfPick(d, name, pick);
    assert name !in d.fold.marks && name !in d.an.reducer.dropped;
    assert NodeYield(d.fold, RuleNode(name, image)) == RunsYield(d.fold, image.runs);
    assert NodeKept(d.an.reducer, RuleNode(name, pick)) == RunsKept(d.an.reducer, pick.runs);
    assert d.fold.red == d.an.reducer;
    hide NodeYield, NodeKept, RunsYield, RunsKept, Derivation.Image, DerivesPick, Plan.Hoists, Plan.Keeps;
    YieldsMore(d, d.an.rules[name].arms[pick.arm].items, pick.runs, image.runs, i, |pick.runs|);
    assert pick.runs[..|pick.runs|] == pick.runs && image.runs[..|pick.runs|] == image.runs;
  }

  // A live arm's tree with one given node as the run of a starred item.
  lemma ArmWith(rules: Rules, items: seq<Item>, i: nat, node: Node) returns (runs: seq<Run>)
    requires LiveArm(rules, items) && i < |items| && Derives(rules, items[i].atom, node) && items[i].quantifier == STAR
    ensures DerivesArm(rules, items, runs) && runs[i] == Once(node)
  {
    var some :| DerivesArm(rules, items, some);
    assert DerivesRun(rules, items[i], Once(node));
    runs := some[i := Once(node)];
    forall j | 0 <= j < |runs| ensures DerivesRun(rules, items[j], runs[j]) {
      assert DerivesRun(rules, items[j], some[j]);
    }
  }

  lemma UnseenSplices(d: Derivation, name: string, pick: Pick)
    requires d.Derived() && d.Unseen() && d.FitRuns()
    requires name in d.an.rules && !d.plan.Keeps(name) && DerivesPick(d.an.rules, d.an.rules[name], pick)
    ensures d.SpliceUnseen(name, pick)
  {
    var image := ImageOfPick(d, name, pick);
    var items := d.an.rules[name].arms[pick.arm].items;
    assert LiveArm(d.an.rules, items);
    ArmFolds(d, true, items, pick.runs, image.runs);
  }

  /**
   The derivation shows on no tree, neither in a value nor in a yielded text, exactly when
   no mark and no live run loses text and no body sees its own runs spliced.
   */
  lemma UnseenExactly(d: Derivation)
    requires d.Derived()
    ensures d.Unseen() <==> d.Fits()
  {
    if d.Fits() {
      forall name, node, image | d.Image(name, node, image) ensures d.UnseenAt(name, node, image) {
        RuleFolds(d, name, node, image);
      }
    }
    if d.Unseen() {
      UnseenMarksFit(d);
      forall name, a, i | name in d.an.rules && !d.plan.Keeps(name) && 0 <= a < |d.an.rules[name].arms|
                          && LiveArm(d.an.rules, d.an.rules[name].arms[a].items)
                          && 0 <= i < |d.an.rules[name].arms[a].items| && d.plan.Hoists(d.an.rules[name].arms[a].items[i])
        ensures LosesNothing(d.an.rules, d.an.reducer, d.an.rules[name].arms[a].items[i].atom.name)
      {
        UnseenRunFits(d, name, a, i);
      }
      forall name, pick | name in d.an.rules && !d.plan.Keeps(name) && DerivesPick(d.an.rules, d.an.rules[name], pick)
        ensures d.SpliceUnseen(name, pick)
      {
        UnseenSplices(d, name, pick);
      }
    }
  }

  // ---------- Bodies that only join ----------

  /** The body cannot tell channels apart that join to the same text. */
  ghost predicate ReadsJoin(red: Reducer, body: Body) {
    forall a, b, kept :: red.Joined(a) == red.Joined(b) ==> red.Apply(body, a, kept) == red.Apply(body, b, kept)
  }

  lemma JoinsReadJoin(red: Reducer, body: Body)
    requires !body.Action?
    ensures ReadsJoin(red, body)
  {
  }

  /** Every rule with runs to hoist reads the join of its channel only. */
  ghost predicate ReadersJoin(d: Derivation) {
    forall name :: name in d.an.rules && !d.plan.Keeps(name) && d.plan.BodyRuns(d.an.rules[name].arms) != {} ==>
      ReadsJoin(d.an.reducer, d.an.reducer.Body(name))
  }

  /** Poison-free trees of the elements show as their text, and poisoned runs are parsed again into the same text and values. */
  ghost predicate ElementsShow(d: Derivation) {
    forall r :: r in d.fold.runs ==>
      var spec := d.fold.runs[r];
      ShowsFreeText(Element(d.an, spec.element, {}), spec.poison) && Reparses(d, spec)
  }

  ghost predicate Reparses(d: Derivation, spec: RunSpec) {
    forall run :: DerivesRun(d.an.rules, Item(RuleRef(spec.element), STAR), run) && !Free(NodesText(run.nodes), spec.poison) ==>
      d.an.reducer.Joined(NodesChannel(d.an.reducer, d.fold.reparse(spec.element, NodesText(run.nodes))))
      == d.an.reducer.Joined(NodesChannel(d.an.reducer, run.nodes))
  }

  // A spliced run joins to what its elements join to.
  lemma SpliceJoins(d: Derivation, items: seq<Item>, i: nat, run: Run)
    requires d.Derived() && ElementsShow(d) && Sourced(d, true, items) && i < |items|
    requires DerivesRun(d.an.rules, items[i], run)
    ensures d.an.reducer.Joined(d.SplicedRun(true, items[i], run)) == d.an.reducer.Joined(NodesChannel(d.an.reducer, run.nodes))
  {
    if d.plan.Hoists(items[i]) {
      HoistedSpec(d, items, i);
      var spec := d.fold.runs[RunName(items[i].atom.name)];
      assert items[i] == Item(RuleRef(spec.element), STAR);
      SpecJoins(d, spec, run);
    }
  }

  lemma SpecJoins(d: Derivation, spec: RunSpec, run: Run)
    requires ShowsFreeText(Element(d.an, spec.element, {}), spec.poison) && Reparses(d, spec)
    requires d.fold.red == d.an.reducer && spec.element !in d.an.reducer.dropped
    requires DerivesRun(d.an.rules, Item(RuleRef(spec.element), STAR), run)
    ensures d.an.reducer.Joined(Splice(d.fold, spec, NodesText(run.nodes))) == d.an.reducer.Joined(NodesChannel(d.an.reducer, run.nodes))
  {
    var element := Element(d.an, spec.element, {});
    var text := NodesText(run.nodes);
    if Free(text, spec.poison) {
      FreeRunsAreTextExactly(element, spec.poison);
      assert FreeRun(element, spec.poison, run);
      assert RunIsText(element, run);
      JoinedOne(d.an.reducer, Text(text));
    }
  }

  lemma {:induction false} SplicesJoin(d: Derivation, items: seq<Item>, runs: seq<Run>, n: nat)
    requires d.Derived() && ElementsShow(d) && Sourced(d, true, items) && DerivesArm(d.an.rules, items, runs)
    requires n <= |runs| == |items|
    ensures d.an.reducer.Joined(d.SplicedRuns(true, items[..n], runs[..n])) == d.an.reducer.Joined(RunsChannel(d.an.reducer, runs[..n]))
    decreases n
  {
    if n > 0 {
      SplicesJoin(d, items, runs, n - 1);
      assert DerivesRun(d.an.rules, items[n - 1], runs[n - 1]);
      SpliceJoins(d, items, n - 1, runs[n - 1]);
      SpliceStep(d, items, runs, n);
      JoinedAppend(d.an.reducer, d.SplicedRuns(true, items[..n - 1], runs[..n - 1]), d.SplicedRun(true, items[n - 1], runs[n - 1]));
      JoinedAppend(d.an.reducer, RunsChannel(d.an.reducer, runs[..n - 1]), NodesChannel(d.an.reducer, runs[n - 1].nodes));
    }
  }

  lemma SpliceStep(d: Derivation, items: seq<Item>, runs: seq<Run>, n: nat)
    requires 0 < n <= |runs| == |items|
    ensures d.SplicedRuns(true, items[..n], runs[..n])
         == d.SplicedRuns(true, items[..n - 1], runs[..n - 1]) + d.SplicedRun(true, items[n - 1], runs[n - 1])
    ensures RunsChannel(d.an.reducer, runs[..n])
         == RunsChannel(d.an.reducer, runs[..n - 1]) + NodesChannel(d.an.reducer, runs[n - 1].nodes)
  {
    hide NodesChannel, Derivation.SplicedRun;
    assert runs[..n][..n - 1] == runs[..n - 1] && items[..n][..n - 1] == items[..n - 1];
  }

  lemma {:induction false} NoneHoisted(d: Derivation, items: seq<Item>, runs: seq<Run>)
    requires |items| == |runs| && forall i :: 0 <= i < |items| ==> !d.plan.Hoists(items[i])
    ensures d.SplicedRuns(true, items, runs) == RunsChannel(d.fold.red, runs)
    decreases |runs|
  {
    if runs != [] {
      NoneHoisted(d, items[..|runs| - 1], runs[..|runs| - 1]);
    }
  }

  /** A body that reads its channel's join only does not see runs spliced, and a rule without runs has none to see. */
  lemma JoinsDoNotSee(d: Derivation)
    requires d.Derived() && ElementsShow(d) && ReadersJoin(d)
    ensures d.NoBodySees()
  {
    forall name, pick | name in d.an.rules && !d.plan.Keeps(name) && DerivesPick(d.an.rules, d.an.rules[name], pick)
      ensures d.SpliceUnseen(name, pick)
    {
      JoinDoesNotSee(d, name, pick);
    }
  }

  lemma HoistsAreRuns(plan: Plan, arms: seq<Sequence>, a: nat)
    requires a < |arms|
    ensures forall i :: 0 <= i < |arms[a].items| && plan.Hoists(arms[a].items[i]) ==>
              RunName(arms[a].items[i].atom.name) in plan.BodyRuns(arms)
  {
    var items := arms[a].items;
    forall i | 0 <= i < |items| && plan.Hoists(items[i]) ensures RunName(items[i].atom.name) in plan.BodyRuns(arms) {
      assert RunName(items[i].atom.name) in plan.ArmRuns(items);
    }
  }

  lemma JoinDoesNotSee(d: Derivation, name: string, pick: Pick)
    requires d.Derived() && ElementsShow(d) && ReadersJoin(d)
    requires name in d.an.rules && !d.plan.Keeps(name) && DerivesPick(d.an.rules, d.an.rules[name], pick)
    ensures d.SpliceUnseen(name, pick)
  {
    var red := d.an.reducer;
    var items := d.an.rules[name].arms[pick.arm].items;
    assert DerivesArm(d.an.rules, items, pick.runs);
    RuleIsSourced(d, name, pick.arm);
    if d.plan.BodyRuns(d.an.rules[name].arms) == {} {
      HoistsAreRuns(d.plan, d.an.rules[name].arms, pick.arm);
      NoneHoisted(d, items, pick.runs);
    } else {
      SplicesJoin(d, items, pick.runs, |pick.runs|);
      assert pick.runs[..|pick.runs|] == pick.runs && items[..|items|] == items;
      assert ReadsJoin(red, red.Body(name));
    }
  }

  /**
   End to end: whatever tree the variant parses to, its fold is the value of a tree of the
   grammar for the same text, where marks and runs lose no text, what the elements show is
   their text, and rules with runs read the join of their channel only.
   */
  lemma FoldIsValue(d: Derivation, name: string, image: Node) returns (node: Node)
    requires d.Derived() && FitMarks(d.an.rules, d.an.reducer, d.fold.marks) && d.FitRuns()
    requires ElementsShow(d) && ReadersJoin(d)
    requires name in d.an.rules && name !in d.an.reducer.dropped && Derives(d.variant, RuleRef(name), image)
    ensures Derives(d.an.rules, RuleRef(name), node) && Spelling(node) == Spelling(image)
    ensures FoldValue(d.fold, name, image.pick) == ValueOf(d.an.reducer, name, node.pick)
  {
    JoinsDoNotSee(d);
    UnseenExactly(d);
    node := TreeOf(d, name, image);
    assert d.UnseenAt(name, node, image);
  }

  // ---------- A body that counts ----------

  // doc ::= word* counts its arguments; word ::= [a] yields its text.
  const WORDS := Sequence([Item(RuleRef("word"), STAR)])

  const COUNT_RULES: Rules := map[
    "doc" := Alternation([WORDS]),
    "word" := Alternation([Sequence([Item(CharClass({'a'}), UNIT)])])]

  const COUNT_REDUCER := Reducer({}, false, map["doc" := Action(0)],
    (tag: nat, channel: seq<Value>, kept: string) => Built(|channel|), (id: int) => "")

  const COUNT_PLAN := Plan({}, {}, map["word" := {}], None)

  const COUNT_RUNS := map[RunName("word") := RunSpec({}, "word")]

  const COUNT_VARIANT: Rules := map[
    "doc" := Alternation([Sequence([Item(RuleRef(RunName("word")), UNIT)])]),
    "word" := COUNT_RULES["word"],
    RunName("word") := RunBody("word")]

  const COUNT := Derivation(
    Analysis(COUNT_RULES, COUNT_REDUCER, map["doc" := {"word"}, "word" := {}]), COUNT_PLAN, COUNT_VARIANT,
    Fold(COUNT_REDUCER, {}, COUNT_RUNS, (element: string, text: string) => []))

  function Word(): Node { RuleNode("word", Pick(0, [Once(Leaf("a"))])) }

  const TWO_WORDS := Pick(0, [Run([Word(), Word()])])

  /** A rule whose body counts its arguments sees its run spliced: two words become one. */
  lemma CountingBodySees()
    ensures COUNT.Derived() && ElementsShow(COUNT) && COUNT.an.Equiv("word")
    ensures FitMarks(COUNT_RULES, COUNT_REDUCER, {}) && COUNT.FitRuns()
    ensures DerivesPick(COUNT_RULES, COUNT_RULES["doc"], TWO_WORDS) && ValueOf(COUNT_REDUCER, "doc", TWO_WORDS) == Built(2)
    ensures COUNT.SplicedRuns(true, WORDS.items, TWO_WORDS.runs) == [Text("aa")]
    ensures !COUNT.Unseen()
  {
    CountIsDerived();
    WordsShow();
    TwoWordsAre();
    SpliceOfTwo();
    assert COUNT.an.EquivWithin("word", 0);
    NothingDroppedFits();
    hide Derivation.Derived, ElementsShow, DerivesPick, ValueOf, Derivation.SplicedRuns, Derivation.FitRuns, Derivation.Unseen;
    UnseenExactly(COUNT);
    CountIsSeen();
  }

  lemma CountIsSeen()
    requires DerivesPick(COUNT_RULES, COUNT_RULES["doc"], TWO_WORDS) && ValueOf(COUNT_REDUCER, "doc", TWO_WORDS) == Built(2)
    requires COUNT.SplicedRuns(true, WORDS.items, TWO_WORDS.runs) == [Text("aa")]
    ensures !COUNT.NoBodySees()
  {
    hide DerivesPick, ValueOf, Derivation.SplicedRuns;
    assert !COUNT.plan.Keeps("doc");
    assert !COUNT.SpliceUnseen("doc", TWO_WORDS);
  }

  lemma NothingDroppedFits()
    ensures forall name :: LosesNothing(COUNT_RULES, COUNT_REDUCER, name)
    ensures COUNT.FitRuns()
  {
  }

  lemma CountIsDerived()
    ensures COUNT.Derived()
  {
    var items := WORDS.items;
    assert COUNT_PLAN.Hoists(items[0]);
    assert COUNT_PLAN.ArmRuns(items) == {RunName("word")};
    var doc := COUNT_RULES["doc"];
    assert doc.arms[0] == WORDS;
    assert COUNT_PLAN.BodyRuns(doc.arms) == {RunName("word")};
    WordHasNoRuns();
    assert COUNT_PLAN.RunsOf(COUNT_RULES, COUNT_RULES.Keys) == {RunName("word")};
    assert COUNT_PLAN.ReplacedItems(items) == [Item(RuleRef(RunName("word")), UNIT)];
    assert COUNT_PLAN.ReplacedArms(doc.arms) == COUNT_VARIANT["doc"].arms;
    SingleRef();
  }

  lemma WordHasNoRuns()
    ensures COUNT_PLAN.BodyRuns(COUNT_RULES["word"].arms) == {}
    ensures COUNT_PLAN.ReplacedArms(COUNT_RULES["word"].arms) == COUNT_RULES["word"].arms
    ensures AltRefs(COUNT_RULES["word"]) == {}
  {
    var item := Item(CharClass({'a'}), UNIT);
    assert COUNT_RULES["word"].arms == [Sequence([item])];
    assert COUNT_PLAN.ArmRuns([item]) == {};
    assert COUNT_PLAN.ReplacedItems([item]) == [item];
    assert AtomRefs(item.atom) == {};
    assert ArmRefs(Sequence([item])) == {};
  }

  lemma SingleRef()
    ensures AltRefs(COUNT_RULES["doc"]) == {"word"}
  {
    assert COUNT_RULES["doc"].arms[0] == WORDS;
    assert AtomRefs(WORDS.items[0].atom) == {"word"};
    assert ArmRefs(WORDS) == {"word"};
  }

  lemma WordsShow()
    ensures ElementsShow(COUNT)
  {
    var element := Element(COUNT.an, "word", {});
    forall a: nat, runs | FreeArm(element, {}, a, runs) ensures ArmIsText(element, a, runs) {
      NothingDroppedFits();
      assert COUNT.an.EquivWithin("word", 0);
      EquivRightExactly(COUNT.an, "word");
      assert DerivesPick(COUNT_RULES, COUNT_RULES["word"], Pick(a, runs));
    }
    assert ShowsFreeText(element, {});
    assert Reparses(COUNT, COUNT_RUNS[RunName("word")]);
  }

  lemma WordIs()
    ensures Derives(COUNT_RULES, RuleRef("word"), Word()) && Spelling(Word()) == "a"
    ensures NodeChannel(COUNT_REDUCER, Word()) == [Text("a")]
  {
    OneRunDerives(COUNT_RULES, CharClass({'a'}), Leaf("a"));
    OneRun(COUNT_REDUCER, Leaf("a"));
  }

  lemma TwoWordsAre()
    ensures DerivesPick(COUNT_RULES, COUNT_RULES["doc"], TWO_WORDS) && ValueOf(COUNT_REDUCER, "doc", TWO_WORDS) == Built(2)
    ensures NodesText([Word(), Word()]) == "aa"
  {
    WordIs();
    hide Word, Spelling, NodeChannel, Derives;
    var nodes := [Word(), Word()];
    OneNode(COUNT_REDUCER, Word());
    assert nodes[..1] == [Word()];
    assert NodesChannel(COUNT_REDUCER, nodes) == [Text("a"), Text("a")];
    assert [Run(nodes)][..0] == [];
    assert RunsChannel(COUNT_REDUCER, [Run(nodes)]) == RunsChannel(COUNT_REDUCER, []) + NodesChannel(COUNT_REDUCER, nodes);
    assert TWO_WORDS == Pick(0, [Run(nodes)]);
    assert DerivesRun(COUNT_RULES, WORDS.items[0], Run(nodes));
    assert DerivesArm(COUNT_RULES, WORDS.items, [Run(nodes)]);
  }

  lemma SpliceOfTwo()
    ensures COUNT.SplicedRuns(true, WORDS.items, TWO_WORDS.runs) == [Text("aa")]
  {
    TwoWordsAre();
    var run := Run([Word(), Word()]);
    hide Word, NodesText, ValueOf, DerivesPick;
    assert TWO_WORDS.runs == [run];
    assert COUNT_PLAN.Hoists(WORDS.items[0]);
    assert COUNT.SplicedRun(true, WORDS.items[0], run) == [Text("aa")];
    assert COUNT.SplicedRuns(true, [], []) == [];
    assert [run][..0] == [] && WORDS.items[..0] == [];
  }
}
