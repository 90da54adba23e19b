/**
 What the text-equivalence verdicts promise: the value is the matched text.
 */
module ReducedText {
  import opened Wrappers
  import opened Grammars
  import opened Reachability
  import opened Listings
  import opened Liveness
  import opened Reduction

  // ---------- Nothing dropped, nothing missing ----------

  /** Dropping this rule loses nothing: it is not dropped, or it only ever spells the empty text. */
  ghost predicate Silent(rules: Rules, red: Reducer, name: string) {
    name in red.dropped ==> forall text :: InLanguage(rules, name, text) ==> text == ""
  }

  /** No tree of the rule has a dropped rule below it that spells something. */
  ghost predicate LosesNothing(rules: Rules, red: Reducer, name: string) {
    forall d :: Reaches(LiveGraph(rules), name, d) ==> Silent(rules, red, d)
  }

  ghost predicate Clean(rules: Rules, red: Reducer, names: set<string>) {
    forall name :: name in names ==> Silent(rules, red, name) && LosesNothing(rules, red, name)
  }

  lemma NamedIsClean(rules: Rules, red: Reducer, name: string)
    requires name in rules && LosesNothing(rules, red, name)
    ensures Clean(rules, red, LiveRefs(rules, rules[name]))
  {
    var live := LiveGraph(rules);
    forall r | r in LiveRefs(rules, rules[name])
      ensures Silent(rules, red, r) && LosesNothing(rules, red, r)
    {
      LiveNames(rules, name, r);
      EdgeReaches(live, name, r);
      forall d | Reaches(live, r, d) ensures Silent(rules, red, d) {
        ReachesOn(live, name, r, d);
      }
    }
  }

  // What a tree takes is live.
  lemma TakenIsClean(rules: Rules, red: Reducer, body: Alternation, pick: Pick, i: nat)
    requires Clean(rules, red, LiveRefs(rules, body)) && DerivesPick(rules, body, pick)
    requires i < |pick.runs| && pick.runs[i].nodes != []
    ensures i < |body.arms[pick.arm].items| && Clean(rules, red, AtomLiveRefs(rules, body.arms[pick.arm].items[i].atom))
  {
    var arm := body.arms[pick.arm];
    assert LiveArm(rules, arm.items);
    assert DerivesRun(rules, arm.items[i], pick.runs[i]);
    assert LiveItem(rules, arm.items[i]);
    forall name | name in AtomLiveRefs(rules, arm.items[i].atom) ensures name in LiveRefs(rules, body) {
      assert name in ArmLiveRefs(rules, arm);
    }
  }

  lemma {:induction false} KeptNode(rules: Rules, red: Reducer, atom: Atom, node: Node)
    requires Derives(rules, atom, node) && Clean(rules, red, AtomLiveRefs(rules, atom))
    ensures NodeKept(red, node) == Spelling(node)
    decreases node
  {
    match atom {
      case RuleRef(name) =>
        assert name in AtomLiveRefs(rules, atom);
        NamedIsClean(rules, red, name);
        KeptPick(rules, red, rules[name], node.pick);
        assert InLanguage(rules, name, Spelling(node));
      case Group(body) =>
        KeptPick(rules, red, body, node.pick);
      case _ =>
    }
  }

  lemma {:induction false} KeptPick(rules: Rules, red: Reducer, body: Alternation, pick: Pick)
    requires DerivesPick(rules, body, pick) && Clean(rules, red, LiveRefs(rules, body))
    ensures RunsKept(red, pick.runs) == RunsText(pick.runs)
    decreases pick
  {
    KeptRuns(rules, red, body, pick, |pick.runs|);
    assert pick.runs[..|pick.runs|] == pick.runs;
  }

  lemma {:induction false} KeptRuns(rules: Rules, red: Reducer, body: Alternation, pick: Pick, n: nat)
    requires DerivesPick(rules, body, pick) && Clean(rules, red, LiveRefs(rules, body)) && n <= |pick.runs|
    ensures RunsKept(red, pick.runs[..n]) == RunsText(pick.runs[..n])
    decreases pick.runs, n
  {
    if n > 0 {
      KeptRuns(rules, red, body, pick, n - 1);
      var item, nodes := body.arms[pick.arm].items[n - 1], pick.runs[n - 1].nodes;
      assert DerivesRun(rules, item, pick.runs[n - 1]);
      if nodes != [] {
        TakenIsClean(rules, red, body, pick, n - 1);
        KeptNodes(rules, red, item.atom, nodes, |nodes|);
        assert nodes[..|nodes|] == nodes;
      }
      assert pick.runs[..n][..n - 1] == pick.runs[..n - 1];
    }
  }

  lemma {:induction false} KeptNodes(rules: Rules, red: Reducer, atom: Atom, nodes: seq<Node>, n: nat)
    requires n <= |nodes| && Clean(rules, red, AtomLiveRefs(rules, atom))
    requires forall k :: 0 <= k < |nodes| ==> Derives(rules, atom, nodes[k])
    ensures NodesKept(red, nodes[..n]) == NodesText(nodes[..n])
    decreases nodes, n
  {
    if n > 0 {
      KeptNodes(rules, red, atom, nodes, n - 1);
      KeptNode(rules, red, atom, nodes[n - 1]);
      assert nodes[..n][..n - 1] == nodes[..n - 1];
    }
  }

  // ---------- Something dropped, something missing ----------

  // Yielding never keeps more than the text.
  lemma {:induction false} KeptAtMost(red: Reducer, node: Node)
    ensures |NodeKept(red, node)| <= |Spelling(node)|
    decreases node
  {
    match node {
      case Leaf(_) =>
      case RuleNode(_, pick) => RunsAtMost(red, pick.runs);
      case GroupNode(pick) => RunsAtMost(red, pick.runs);
    }
  }

  lemma {:induction false} RunsAtMost(red: Reducer, runs: seq<Run>)
    ensures |RunsKept(red, runs)| <= |RunsText(runs)|
    decreases runs
  {
    if runs != [] {
      RunsAtMost(red, runs[..|runs| - 1]);
      NodesAtMost(red, runs[|runs| - 1].nodes);
    }
  }

  lemma {:induction false} NodesAtMost(red: Reducer, nodes: seq<Node>)
    ensures |NodesKept(red, nodes)| <= |NodesText(nodes)|
    decreases nodes
  {
    if nodes != [] {
      NodesAtMost(red, nodes[..|nodes| - 1]);
      KeptAtMost(red, nodes[|nodes| - 1]);
    }
  }

  // One run that loses text makes the whole lose text.
  lemma {:induction false} LosingRun(red: Reducer, runs: seq<Run>, i: nat)
    requires i < |runs| && |NodesKept(red, runs[i].nodes)| < |NodesText(runs[i].nodes)|
    ensures |RunsKept(red, runs)| < |RunsText(runs)|
    decreases runs
  {
    var last := |runs| - 1;
    NodesAtMost(red, runs[last].nodes);
    if i < last {
      LosingRun(red, runs[..last], i);
    } else {
      RunsAtMost(red, runs[..last]);
    }
  }

  lemma LosingNodes(red: Reducer, nodes: seq<Node>)
    requires nodes != [] && |NodeKept(red, nodes[|nodes| - 1])| < |Spelling(nodes[|nodes| - 1])|
    ensures |NodesKept(red, nodes)| < |NodesText(nodes)|
  {
    NodesAtMost(red, nodes[..|nodes| - 1]);
  }

  // A live arm has a tree holding any given tree of a live item's atom.
  lemma ArmHolding(rules: Rules, red: Reducer, items: seq<Item>, i: nat, node: Node) returns (runs: seq<Run>)
    requires i < |items| && LiveArm(rules, items) && LiveItem(rules, items[i])
    requires Derives(rules, items[i].atom, node) && |NodeKept(red, node)| < |Spelling(node)|
    ensures DerivesArm(rules, items, runs) && |RunsKept(red, runs)| < |RunsText(runs)|
  {
    var some :| DerivesArm(rules, items, some);
    var run :| DerivesRun(rules, items[i], run) && run.nodes != [];
    var held := Run(seq(|run.nodes|, _ => node));
    assert DerivesRun(rules, items[i], held);
    runs := some[i := held];
    forall j | 0 <= j < |runs| ensures DerivesRun(rules, items[j], runs[j]) {
      assert DerivesRun(rules, items[j], some[j]);
    }
    LosingNodes(red, held.nodes);
    LosingRun(red, runs, i);
  }

  // A body that takes a rule has a tree holding any given tree of that rule.
  lemma {:induction false} TreeHolding(rules: Rules, red: Reducer, body: Alternation, name: string, held: Node)
    returns (pick: Pick)
    requires name in LiveRefs(rules, body)
    requires Derives(rules, RuleRef(name), held) && |NodeKept(red, held)| < |Spelling(held)|
    ensures DerivesPick(rules, body, pick) && |RunsKept(red, pick.runs)| < |RunsText(pick.runs)|
    decreases body
  {
    var a :| 0 <= a < |body.arms| && LiveArm(rules, body.arms[a].items) && name in ArmLiveRefs(rules, body.arms[a]);
    var items := body.arms[a].items;
    var i :| 0 <= i < |items| && LiveItem(rules, items[i]) && name in AtomLiveRefs(rules, items[i].atom);
    var node: Node;
    match items[i].atom {
      case RuleRef(_) =>
        node := held;
      case Group(inner) =>
        var below := TreeHolding(rules, red, inner, name, held);
        node := GroupNode(below);
    }
    var runs := ArmHolding(rules, red, items, i, node);
    pick := Pick(a, runs);
  }

  // Along a live path to a rule with a tree that loses text, every rule has one.
  lemma {:induction false} LosingAlong(rules: Rules, red: Reducer, path: seq<string>, held: Node)
    returns (pick: Pick)
    requires IsPath(LiveGraph(rules), path)
    requires Derives(rules, RuleRef(path[|path| - 1]), held) && |NodeKept(red, held)| < |Spelling(held)|
    ensures path[0] in rules && DerivesPick(rules, rules[path[0]], pick) && |RunsKept(red, pick.runs)| < |RunsText(pick.runs)|
    decreases |path|
  {
    var live := LiveGraph(rules);
    assert Names(live, path[0], path[1]);
    LiveNames(rules, path[0], path[1]);
    var node := held;
    if |path| > 2 {
      assert IsPath(live, path[1..]) by {
        forall k | 0 <= k < |path[1..]| - 1 ensures Names(live, path[1..][k], path[1..][k + 1]) {
          assert Names(live, path[k + 1], path[k + 1 + 1]);
        }
      }
      var below := LosingAlong(rules, red, path[1..], held);
      node := RuleNode(path[1], below);
    }
    pick := TreeHolding(rules, red, rules[path[0]], path[1], node);
  }

  // A rule that reaches a dropped rule that spells something has a tree that loses text.
  lemma LosingTree(rules: Rules, red: Reducer, name: string) returns (pick: Pick)
    requires !LosesNothing(rules, red, name)
    ensures name in rules && DerivesPick(rules, rules[name], pick)
    ensures |RunsKept(red, pick.runs)| < |RunsText(pick.runs)|
  {
    var live := LiveGraph(rules);
    var d :| Reaches(live, name, d) && !Silent(rules, red, d);
    var text :| InLanguage(rules, d, text) && text != "";
    var held :| Derives(rules, RuleRef(d), held) && Spelling(held) == text;
    var path :| IsPath(live, path) && path[0] == name && path[|path| - 1] == d;
    pick := LosingAlong(rules, red, path, held);
  }

  /** On every grammar, a rule's trees keep all their text exactly when no live reference leads to a dropped rule that spells something. */
  lemma KeptIsTextExactly(rules: Rules, red: Reducer, name: string)
    requires name in rules
    ensures (forall pick :: DerivesPick(rules, rules[name], pick) ==> RunsKept(red, pick.runs) == RunsText(pick.runs))
       <==> LosesNothing(rules, red, name)
  {
    if LosesNothing(rules, red, name) {
      NamedIsClean(rules, red, name);
      forall pick | DerivesPick(rules, rules[name], pick) ensures RunsKept(red, pick.runs) == RunsText(pick.runs) {
        KeptPick(rules, red, rules[name], pick);
      }
    } else {
      var pick := LosingTree(rules, red, name);
    }
  }

  // ---------- Exactly when a verdict is right ----------

  // A text-equivalent rule's value is what its tree keeps, however the verdict was come by.
  lemma {:induction false} EquivIsKept(an: Analysis, name: string, pick: Pick)
    requires an.Equiv(name) && name in an.rules && DerivesPick(an.rules, an.rules[name], pick)
    ensures ValueOf(an.reducer, name, pick) == Text(RunsKept(an.reducer, pick.runs))
    decreases pick
  {
    var k: nat :| an.EquivWithin(name, k);
    var red := an.reducer;
    var body := an.rules[name];
    match red.Body(name) {
      case Yield =>
      case Constant(text) =>
        LiteralTree(an.rules, red, body, pick);
      case JoinArgs =>
        an.JoinEquiv(name);
        var items := body.arms[pick.arm].items;
        forall i | 0 <= i < |items| ensures items[i].atom.RuleRef? && an.Equiv(items[i].atom.name) {
          assert body.arms[pick.arm].items[i] == items[i];
        }
        JoinedRuns(an, items, pick.runs, |pick.runs|);
        assert pick.runs[..|pick.runs|] == pick.runs;
      case Action(_) =>
    }
  }

  lemma LiteralTree(rules: Rules, red: Reducer, body: Alternation, pick: Pick)
    requires SingleLiteral(body).Some? && DerivesPick(rules, body, pick)
    ensures RunsText(pick.runs) == RunsKept(red, pick.runs) == SingleLiteral(body).value
  {
    var item := body.arms[0].items[0];
    var run := pick.runs[0];
    assert DerivesRun(rules, item, run) && |pick.runs| == 1;
    var node := run.nodes[0];
    assert Derives(rules, item.atom, node);
    hide RunsText, RunsKept, NodesText, NodesKept;
    assert run == Once(node) && pick.runs == [Once(node)];
    OneRun(red, node);
  }

  lemma {:induction false} JoinedAppend(red: Reducer, a: seq<Value>, b: seq<Value>)
    ensures red.Joined(a + b) == red.Joined(a) + red.Joined(b)
    decreases |b|
  {
    if b == [] {
      assert a + b == a;
    } else {
      JoinedAppend(red, a, b[..|b| - 1]);
      assert (a + b)[..|a + b| - 1] == a + b[..|b| - 1];
    }
  }

  lemma {:induction false} JoinedRuns(an: Analysis, items: seq<Item>, runs: seq<Run>, n: nat)
    requires DerivesArm(an.rules, items, runs) && n <= |runs|
    requires forall i :: 0 <= i < |items| ==> items[i].atom.RuleRef? && an.Equiv(items[i].atom.name)
    ensures an.reducer.Joined(RunsChannel(an.reducer, runs[..n])) == RunsKept(an.reducer, runs[..n])
    decreases runs, n
  {
    if n > 0 {
      JoinedRuns(an, items, runs, n - 1);
      assert DerivesRun(an.rules, items[n - 1], runs[n - 1]);
      var nodes := runs[n - 1].nodes;
      JoinedNodes(an, items[n - 1].atom, nodes, |nodes|);
      assert nodes[..|nodes|] == nodes && runs[..n][..n - 1] == runs[..n - 1];
      JoinedAppend(an.reducer, RunsChannel(an.reducer, runs[..n - 1]), NodesChannel(an.reducer, nodes));
    }
  }

  lemma {:induction false} JoinedNodes(an: Analysis, atom: Atom, nodes: seq<Node>, n: nat)
    requires n <= |nodes| && atom.RuleRef? && an.Equiv(atom.name)
    requires forall k :: 0 <= k < |nodes| ==> Derives(an.rules, atom, nodes[k])
    ensures an.reducer.Joined(NodesChannel(an.reducer, nodes[..n])) == NodesKept(an.reducer, nodes[..n])
    decreases nodes, n
  {
    if n > 0 {
      JoinedNodes(an, atom, nodes, n - 1);
      var node := nodes[n - 1];
      assert Derives(an.rules, atom, node);
      EquivIsKept(an, atom.name, node.pick);
      var k: nat :| an.EquivWithin(atom.name, k);
      assert nodes[..n][..n - 1] == nodes[..n - 1];
      JoinedAppend(an.reducer, NodesChannel(an.reducer, nodes[..n - 1]), NodeChannel(an.reducer, node));
      JoinedOne(an.reducer, ValueOf(an.reducer, atom.name, node.pick));
    }
  }

  lemma JoinedOne(red: Reducer, value: Value)
    ensures red.Joined([value]) == red.Shown(value)
  {
    assert [value][..0] == [];
  }

  /** On every tree of the rule, its value is its text. */
  ghost predicate ValueIsText(rules: Rules, red: Reducer, name: string) {
    forall pick :: name in rules && DerivesPick(rules, rules[name], pick) ==> ValueOf(red, name, pick) == Text(RunsText(pick.runs))
  }

  /**
   On every grammar and with any table, a rule called text-equivalent reduces to its text
   exactly when no live reference leads from it to a dropped rule that spells something.
   */
  lemma EquivRightExactly(an: Analysis, name: string)
    requires an.Equiv(name)
    ensures ValueIsText(an.rules, an.reducer, name) <==> LosesNothing(an.rules, an.reducer, name)
  {
    if name in an.rules {
      KeptIsTextExactly(an.rules, an.reducer, name);
      forall pick | DerivesPick(an.rules, an.rules[name], pick)
        ensures ValueOf(an.reducer, name, pick) == Text(RunsKept(an.reducer, pick.runs))
      {
        EquivIsKept(an, name, pick);
      }
    } else if !LosesNothing(an.rules, an.reducer, name) {
      var pick := LosingTree(an.rules, an.reducer, name);
    }
  }

  /** A rule that yields its text yields all of it, on every tree, exactly under the same condition. */
  lemma YieldIsTextExactly(rules: Rules, red: Reducer, name: string)
    requires name in rules && red.Body(name).Yield?
    ensures ValueIsText(rules, red, name) <==> LosesNothing(rules, red, name)
  {
    KeptIsTextExactly(rules, red, name);
    assert forall pick :: ValueOf(red, name, pick) == Text(RunsKept(red, pick.runs));
  }

  // ---------- The verdicts of one table ----------

  /** Every rule called text-equivalent reduces to its text. */
  ghost predicate VerdictsRight(an: Analysis) {
    forall name :: an.Equiv(name) ==> ValueIsText(an.rules, an.reducer, name)
  }

  /** The rule yields its text, and its entry shows no dropped rule. */
  predicate Passes(an: Analysis, n: string) {
    && an.reducer.Body(n).Yield? && n !in an.reducer.dropped
    && n in an.reach && an.reach[n] !! an.reducer.dropped
  }

  /** No rule that passes the guard on the table loses text. */
  ghost predicate DropsSeen(an: Analysis) {
    forall n :: Passes(an, n) ==> LosesNothing(an.rules, an.reducer, n)
  }

  // What a text-equivalent rule takes is text-equivalent, down to rules that yield.
  lemma {:induction false} SeenLosesNothing(an: Analysis, name: string, k: nat)
    requires DropsSeen(an) && an.EquivWithin(name, k)
    ensures LosesNothing(an.rules, an.reducer, name)
    decreases k
  {
    if !an.reducer.Body(name).Yield? {
      var live := LiveGraph(an.rules);
      forall d | Reaches(live, name, d) ensures Silent(an.rules, an.reducer, d) {
        var next := FirstEdge(live, name, d);
        LiveNames(an.rules, name, next);
        LiveRefsAreRefs(an.rules, an.rules[name]);
        TakenIsEquiv(an, name, k, next);
        SeenLosesNothing(an, next, k - 1);
      }
    }
  }

  lemma TakenIsEquiv(an: Analysis, name: string, k: nat, next: string)
    requires an.EquivWithin(name, k) && !an.reducer.Body(name).Yield? && name in an.rules
    requires next in AltRefs(an.rules[name])
    ensures k > 0 && an.EquivWithin(next, k - 1)
  {
    var body := an.rules[name];
    var a :| 0 <= a < |body.arms| && next in ArmRefs(body.arms[a]);
    var i :| 0 <= i < |body.arms[a].items| && next in AtomRefs(body.arms[a].items[i].atom);
    if an.reducer.Body(name).JoinArgs? {
      assert an.JoinsWithin(body, k - 1);
      assert body.arms[a].items[i].atom.RuleRef?;
    }
  }

  /** All the verdicts are right exactly when the guard on the table never passes over a rule that loses text. */
  lemma VerdictsRightExactly(an: Analysis)
    ensures VerdictsRight(an) <==> DropsSeen(an)
  {
    if DropsSeen(an) {
      forall name | an.Equiv(name) ensures ValueIsText(an.rules, an.reducer, name) {
        var k: nat :| an.EquivWithin(name, k);
        SeenLosesNothing(an, name, k);
        EquivRightExactly(an, name);
      }
    }
    if VerdictsRight(an) {
      forall n | Passes(an, n)
        ensures LosesNothing(an.rules, an.reducer, n)
      {
        assert an.EquivWithin(n, 0);
        EquivRightExactly(an, n);
      }
    }
  }

  /** What a caller can check of the grammar: no rule that yields its text reaches both a cycle and a dropped rule. */
  ghost predicate CyclesReachNoDrop(graph: Graph, red: Reducer) {
    forall n, d ::
          n in graph && red.Body(n).Yield? && ReachesCycle(graph, n) && Reaches(graph, n, d) ==> d !in red.dropped
  }

  // Where the table shows every dropped rule the grammar's references reach, it shows the live ones.
  lemma ShownIsSeen(an: Analysis, graph: Graph)
    requires IsGraphOf(graph, an.rules)
    requires forall n, d :: Passes(an, n) && Reaches(graph, n, d) ==> d !in an.reducer.dropped
    ensures DropsSeen(an)
  {
    forall n, d | Passes(an, n) && Reaches(LiveGraph(an.rules), n, d)
      ensures Silent(an.rules, an.reducer, d)
    {
      LiveReachesReach(an.rules, graph, n, d);
    }
  }

  lemma TruthfulSeesDrops(an: Analysis, graph: Graph)
    requires IsGraphOf(graph, an.rules) && Truthful(graph, an.reach) && CyclesReachNoDrop(graph, an.reducer)
    ensures DropsSeen(an)
  {
    forall n, d | Passes(an, n) && Reaches(graph, n, d)
      ensures d !in an.reducer.dropped
    {
      assert Answers(graph, n, an.reach[n]);
      ReachingIsDefined(graph, n, d);
    }
    ShownIsSeen(an, graph);
  }

  /**
   On every derivation tree, a rule the analysis calls text-equivalent reduces to its
   text, as long as no text-yielding rule reaches both a cycle and a dropped rule.
   */
  lemma TextEquivalentValueIsText(an: Analysis, graph: Graph, names: seq<string>)
    requires IsGraphOf(graph, an.rules) && an.reach == ReachMap(graph, names, map[])
    requires CyclesReachNoDrop(graph, an.reducer)
    ensures VerdictsRight(an)
  {
    ReachMapIsTruthful(graph, names, map[]);
    TruthfulSeesDrops(an, graph);
    VerdictsRightExactly(an);
  }

  // ---------- The verdicts in every order ----------

  /** Unbroken for the dropped rules, a grammar has right verdicts whatever the order of its rules and references. */
  lemma UnbrokenVerdictsAreRight(an: Analysis, graph: Graph)
    requires IsGraphOf(graph, an.rules) && IsTable(graph, an.reach) && Unbroken(graph, an.reducer.dropped, false)
    ensures VerdictsRight(an)
  {
    var dropped := an.reducer.dropped;
    ShownInEveryOrder(graph, dropped, false);
    forall n, d | Passes(an, n) && Reaches(graph, n, d)
      ensures d !in dropped
    {
      NotShown(an.reach[n], dropped);
      assert d in dropped ==> Touches(graph, dropped, n);
    }
    ShownIsSeen(an, graph);
    VerdictsRightExactly(an);
  }

  ghost predicate RightInEveryOrder(rules: Rules, red: Reducer, graph: Graph) {
    forall reach :: IsTable(graph, reach) ==> VerdictsRight(Analysis(rules, red, reach))
  }

  /** Right in every order, no stack cuts a yielding rule that loses text off from the dropped rules. */
  lemma RightVerdictsAreUnbroken(rules: Rules, red: Reducer, graph: Graph, path: seq<string>)
    requires IsGraphOf(graph, rules) && RightInEveryOrder(rules, red, graph) && IsStack(graph, path)
    requires var end := path[|path| - 1];
             red.Body(end).Yield? && end !in red.dropped && !LosesNothing(rules, red, end)
    ensures TouchesAvoiding(graph, Elements(path[..|path| - 1]), red.dropped, path[|path| - 1])
  {
    var end := path[|path| - 1];
    var d :| Reaches(LiveGraph(rules), end, d) && !Silent(rules, red, d);
    LiveReachesReach(rules, graph, end, d);
    ReachingIsDefined(graph, end, d);
    if !TouchesAvoiding(graph, Elements(path[..|path| - 1]), red.dropped, end) {
      var reach := BrokenTable(graph, red.dropped, path);
      VerdictsRightExactly(Analysis(rules, red, reach));
      NotShown(reach[end], red.dropped);
    }
  }

  lemma NotShown(out: set<string>, targets: set<string>)
    ensures out !! targets <==> !Shows(out, targets)
  {
  }

  /** Where every rule above a dropped one yields and loses text, unbroken is exactly what right verdicts need. */
  lemma RightInEveryOrderExactly(rules: Rules, red: Reducer, graph: Graph)
    requires IsGraphOf(graph, rules)
    requires forall n :: n !in red.dropped && Touches(graph, red.dropped, n) ==> red.Body(n).Yield? && !LosesNothing(rules, red, n)
    ensures RightInEveryOrder(rules, red, graph) <==> Unbroken(graph, red.dropped, false)
  {
    if Unbroken(graph, red.dropped, false) {
      forall reach | IsTable(graph, reach) ensures VerdictsRight(Analysis(rules, red, reach)) {
        UnbrokenVerdictsAreRight(Analysis(rules, red, reach), graph);
      }
    }
    if RightInEveryOrder(rules, red, graph) {
      forall path | IsStack(graph, path) && Owes(graph, red.dropped, false, path[|path| - 1])
        ensures TouchesAvoiding(graph, Elements(path[..|path| - 1]), red.dropped, path[|path| - 1])
      {
        RightVerdictsAreUnbroken(rules, red, graph, path);
      }
    }
  }

  // ---------- One occurrence ----------

  function Once(node: Node): Run { Run([node]) }

  lemma OneRun(red: Reducer, node: Node)
    ensures RunsText([Once(node)]) == Spelling(node) && RunsKept(red, [Once(node)]) == NodeKept(red, node)
    ensures RunsChannel(red, [Once(node)]) == NodeChannel(red, node)
  {
    OneNode(red, node);
    assert [Once(node)][..0] == [];
    assert RunsText([Once(node)]) == NodesText([node]);
    assert RunsKept(red, [Once(node)]) == RunsKept(red, []) + NodesKept(red, [node]);
    assert RunsChannel(red, [Once(node)]) == NodesChannel(red, [node]);
  }

  lemma OneNode(red: Reducer, node: Node)
    ensures NodesText([node]) == Spelling(node) && NodesKept(red, [node]) == NodeKept(red, node)
    ensures NodesChannel(red, [node]) == NodeChannel(red, node)
  {
    assert [node][..0] == [];
  }

  // ---------- The verdict inside a cycle ----------

  function OneRef(name: string): Sequence { Sequence([Item(RuleRef(name), UNIT)]) }

  const RING_RULES: Rules := map[
    "A" := Alternation([OneRef("B"), OneRef("D")]),
    "B" := Alternation([OneRef("C")]),
    "C" := Alternation([OneRef("A")]),
    "D" := Alternation([Sequence([Item(Literal("d"), UNIT)])])]

  const RING_REDUCER := Reducer({"D"}, false, map[], (tag, channel, kept) => Built(0), id => "")

  // C's tree for "d".
  const RING_PICK := Pick(0, [Once(RuleNode("A", Pick(1, [Once(RuleNode("D", Pick(0, [Once(Leaf("d"))])))])))])

  lemma SingleArm(name: string)
    ensures ArmRefs(OneRef(name)) == {name}
  {
    var item := OneRef(name).items[0];
    assert AtomRefs(item.atom) == {name};
  }

  lemma LiteralArm(text: string)
    ensures ArmRefs(Sequence([Item(Literal(text), UNIT)])) == {}
  {
  }

  lemma RingGraphIs()
    ensures IsGraphOf(RING, RING_RULES)
  {
    hide ArmRefs;
    SingleArm("A");
    SingleArm("B");
    SingleArm("C");
    SingleArm("D");
    LiteralArm("d");
    assert RING_RULES["A"].arms[0] == OneRef("B") && RING_RULES["A"].arms[1] == OneRef("D");
    assert Elements(RING["A"]) == AltRefs(RING_RULES["A"]);
    assert RING_RULES["B"].arms[0] == OneRef("C") && RING_RULES["C"].arms[0] == OneRef("A");
    assert Elements(RING["B"]) == AltRefs(RING_RULES["B"]);
    assert Elements(RING["C"]) == AltRefs(RING_RULES["C"]);
    assert Elements(RING["D"]) == AltRefs(RING_RULES["D"]);
  }

  lemma OneRunDerives(rules: Rules, atom: Atom, node: Node)
    requires Derives(rules, atom, node)
    ensures DerivesArm(rules, [Item(atom, UNIT)], [Once(node)])
  {
    assert DerivesRun(rules, Item(atom, UNIT), Once(node));
  }

  lemma RingTree()
    ensures DerivesPick(RING_RULES, RING_RULES["C"], RING_PICK)
    ensures RunsText(RING_PICK.runs) == "d" && RunsKept(RING_REDUCER, RING_PICK.runs) == ""
  {
    var leaf := Leaf("d");
    var d := RuleNode("D", Pick(0, [Once(leaf)]));
    var a := RuleNode("A", Pick(1, [Once(d)]));
    assert RING_PICK == Pick(0, [Once(a)]);
    OneRunDerives(RING_RULES, Literal("d"), leaf);
    OneRun(RING_REDUCER, leaf);
    OneRunDerives(RING_RULES, RuleRef("D"), d);
    OneRun(RING_REDUCER, d);
    OneRunDerives(RING_RULES, RuleRef("A"), a);
    OneRun(RING_REDUCER, a);
  }

  /** The partial answer in a cycle lets a rule be called text-equivalent whose value loses text. */
  lemma CyclicVerdictLosesText()
    ensures IsGraphOf(RING, RING_RULES)
    ensures var an := Analysis(RING_RULES, RING_REDUCER, ReachMap(RING, ["A", "B", "C", "D"], map[]));
            && an.Equiv("C") && DerivesPick(RING_RULES, RING_RULES["C"], RING_PICK)
            && RunsText(RING_PICK.runs) == "d" && ValueOf(RING_REDUCER, "C", RING_PICK) == Text("")
  {
    var an := Analysis(RING_RULES, RING_REDUCER, ReachMap(RING, ["A", "B", "C", "D"], map[]));
    CycleLeavesPartialAnswer();
    RingGraphIs();
    RingTree();
    hide ReachMap, DerivesPick, RunsText, RunsKept, IsGraphOf, RunsChannel;
    assert an.EquivWithin("C", 0);
  }
}
