/**
 Rewriting a grammar without changing its languages.

 One relation covers both rewrites of the reduce derivation: a nested group may
 become a reference to a rule with the group's body, and `r*` may become one
 reference to a rule whose body is `r*`.
 */
module Rewrites {
  import opened Grammars

  /** The body of a hoisted run: `element*`. */
  function RunBody(element: string): Alternation {
    Alternation([Sequence([Item(RuleRef(element), STAR)])])
  }

  // ---------- The relation ----------

  ghost predicate SameDefined(from: Rules, to: Rules, name: string) {
    name in from <==> name in to
  }

  ghost predicate AtomTo(from: Rules, to: Rules, atom: Atom, image: Atom)
    decreases atom
  {
    match atom
    case RuleRef(name) => image == atom && SameDefined(from, to, name)
    case Group(body) =>
      || (image.Group? && AltTo(from, to, body, image.body))
      || (image.RuleRef? && image.name in to && AltTo(from, to, body, to[image.name]))
    case _ => image == atom
  }

  ghost predicate ItemTo(from: Rules, to: Rules, item: Item, image: Item)
    decreases item
  {
    || (image.quantifier == item.quantifier && AtomTo(from, to, item.atom, image.atom))
    || Hoisted(from, to, item, image)
  }

  ghost predicate Hoisted(from: Rules, to: Rules, item: Item, image: Item) {
    && item.quantifier == STAR && item.atom.RuleRef? && SameDefined(from, to, item.atom.name)
    && image.quantifier == UNIT && image.atom.RuleRef?
    && image.atom.name in to && to[image.atom.name] == RunBody(item.atom.name)
  }

  ghost predicate ArmTo(from: Rules, to: Rules, arm: Sequence, image: Sequence)
    decreases arm
  {
    |image.items| == |arm.items| && forall i :: 0 <= i < |arm.items| ==> ItemTo(from, to, arm.items[i], image.items[i])
  }

  ghost predicate AltTo(from: Rules, to: Rules, body: Alternation, image: Alternation)
    decreases body
  {
    |image.arms| == |body.arms| && forall a :: 0 <= a < |body.arms| ==> ArmTo(from, to, body.arms[a], image.arms[a])
  }

  /** Every rule of `from` is a rule of `to`, its body rewritten. */
  ghost predicate Rewrites(from: Rules, to: Rules) {
    forall name :: name in from ==> name in to && AltTo(from, to, from[name], to[name])
  }

  // ---------- A tree and its image ----------

  /** The image tree takes the same arms and the same leaves, a hoisted run wrapped in one node of its rule. */
  ghost predicate NodeMirrors(from: Rules, to: Rules, atom: Atom, image: Atom, node: Node, r: Node)
    decreases node
  {
    match atom
    case RuleRef(name) =>
      && node.RuleNode? && r.RuleNode? && node.name == r.name == name && name in from && name in to
      && PickMirrors(from, to, from[name], to[name], node.pick, r.pick)
    case Group(body) =>
      && node.GroupNode?
      && (if image.Group? then r.GroupNode? && PickMirrors(from, to, body, image.body, node.pick, r.pick)
          else
            && r.RuleNode? && image.RuleRef? && r.name == image.name && image.name in to
            && PickMirrors(from, to, body, to[image.name], node.pick, r.pick))
    case _ => r == node
  }

  ghost predicate PickMirrors(from: Rules, to: Rules, body: Alternation, image: Alternation, pick: Pick, r: Pick)
    decreases pick
  {
    && pick.arm == r.arm && pick.arm < |body.arms| && pick.arm < |image.arms|
    && RunsMirror(from, to, body.arms[pick.arm].items, image.arms[pick.arm].items, pick.runs, r.runs)
  }

  ghost predicate RunsMirror(from: Rules, to: Rules, items: seq<Item>, image: seq<Item>, runs: seq<Run>, r: seq<Run>)
    decreases runs
  {
    && |runs| == |r| == |items| == |image|
    && forall i :: 0 <= i < |runs| ==> RunMirrors(from, to, items[i], image[i], runs[i], r[i])
  }

  ghost predicate RunMirrors(from: Rules, to: Rules, item: Item, image: Item, run: Run, r: Run)
    decreases run, 1
  {
    if Hoisted(from, to, item, image) then
      && |r.nodes| == 1 && r.nodes[0].RuleNode? && r.nodes[0].name == image.atom.name
      && r.nodes[0].pick.arm == 0 && |r.nodes[0].pick.runs| == 1
      && NodesMirror(from, to, item.atom, item.atom, run.nodes, r.nodes[0].pick.runs[0].nodes)
    else NodesMirror(from, to, item.atom, image.atom, run.nodes, r.nodes)
  }

  ghost predicate NodesMirror(from: Rules, to: Rules, atom: Atom, image: Atom, nodes: seq<Node>, r: seq<Node>)
    decreases nodes
  {
    && |nodes| == |r|
    && forall k :: 0 <= k < |nodes| ==> NodeMirrors(from, to, atom, image, nodes[k], r[k])
  }

  /** A tree and its image spell the same. */
  lemma {:induction false} MirrorSpells(from: Rules, to: Rules, atom: Atom, image: Atom, node: Node, r: Node)
    requires NodeMirrors(from, to, atom, image, node, r)
    ensures Spelling(r) == Spelling(node)
    decreases node
  {
    match atom {
      case RuleRef(name) =>
        RunsSpell(from, to, from[name].arms[node.pick.arm].items, to[name].arms[node.pick.arm].items, node.pick.runs, r.pick.runs);
      case Group(body) =>
        var other := if image.Group? then image.body else to[image.name];
        RunsSpell(from, to, body.arms[node.pick.arm].items, other.arms[node.pick.arm].items, node.pick.runs, r.pick.runs);
      case _ =>
    }
  }

  lemma {:induction false} RunsSpell(from: Rules, to: Rules, items: seq<Item>, image: seq<Item>, runs: seq<Run>, r: seq<Run>)
    requires RunsMirror(from, to, items, image, runs, r)
    ensures RunsText(r) == RunsText(runs)
    decreases runs
  {
    if runs != [] {
      var last := |runs| - 1;
      hide NodesMirror, NodesText;
      RunsSpell(from, to, items[..last], image[..last], runs[..last], r[..last]);
      RunSpells(from, to, items[last], image[last], runs[last], r[last]);
    }
  }

  lemma {:induction false} RunSpells(from: Rules, to: Rules, item: Item, image: Item, run: Run, r: Run)
    requires RunMirrors(from, to, item, image, run, r)
    ensures NodesText(r.nodes) == NodesText(run.nodes)
    decreases run, 1
  {
    if Hoisted(from, to, item, image) {
      var inner := r.nodes[0].pick.runs[0];
      NodesSpell(from, to, item.atom, item.atom, run.nodes, inner.nodes);
      WrappedSpells(r.nodes[0], inner);
      assert r.nodes == [r.nodes[0]];
    } else {
      NodesSpell(from, to, item.atom, image.atom, run.nodes, r.nodes);
    }
  }

  lemma WrappedSpells(node: Node, inner: Run)
    requires node.RuleNode? && node.pick.runs == [inner]
    ensures Spelling(node) == NodesText(inner.nodes) == NodesText([node])
  {
    assert [inner][..0] == [] && [node][..0] == [];
    assert RunsText([inner]) == RunsText([]) + NodesText(inner.nodes);
    assert NodesText([node]) == NodesText([]) + Spelling(node);
  }

  lemma {:induction false} NodesSpell(from: Rules, to: Rules, atom: Atom, image: Atom, nodes: seq<Node>, r: seq<Node>)
    requires NodesMirror(from, to, atom, image, nodes, r)
    ensures NodesText(r) == NodesText(nodes)
    decreases nodes
  {
    if nodes != [] {
      var last := |nodes| - 1;
      NodesSpell(from, to, atom, image, nodes[..last], r[..last]);
      MirrorSpells(from, to, atom, image, nodes[last], r[last]);
    }
  }

  // ---------- From a tree to the rewritten tree ----------

  lemma {:induction false} NodeTo(from: Rules, to: Rules, atom: Atom, image: Atom, node: Node) returns (r: Node)
    requires Rewrites(from, to) && AtomTo(from, to, atom, image) && Derives(from, atom, node)
    ensures Derives(to, image, r) && NodeMirrors(from, to, atom, image, node, r) && Spelling(r) == Spelling(node)
    decreases node
  {
    match atom {
      case RuleRef(name) =>
        var pick := PickTo(from, to, from[name], to[name], node.pick);
        r := RuleNode(name, pick);
      case Group(body) =>
        if image.Group? {
          var pick := PickTo(from, to, body, image.body, node.pick);
          r := GroupNode(pick);
        } else {
          var pick := PickTo(from, to, body, to[image.name], node.pick);
          r := RuleNode(image.name, pick);
        }
      case _ =>
        r := node;
    }
    MirrorSpells(from, to, atom, image, node, r);
  }

  lemma {:induction false} PickTo(from: Rules, to: Rules, body: Alternation, image: Alternation, pick: Pick)
    returns (r: Pick)
    requires Rewrites(from, to) && AltTo(from, to, body, image) && DerivesPick(from, body, pick)
    ensures DerivesPick(to, image, r) && PickMirrors(from, to, body, image, pick, r)
    decreases pick
  {
    assert ArmTo(from, to, body.arms[pick.arm], image.arms[pick.arm]);
    var runs := RunsTo(from, to, body.arms[pick.arm].items, image.arms[pick.arm].items, pick.runs, |pick.runs|);
    r := Pick(pick.arm, runs);
  }

  lemma {:induction false} RunsTo(from: Rules, to: Rules, items: seq<Item>, image: seq<Item>, runs: seq<Run>, n: nat)
    returns (r: seq<Run>)
    requires Rewrites(from, to) && DerivesArm(from, items, runs) && n <= |runs|
    requires |image| == |items| && forall i :: 0 <= i < |items| ==> ItemTo(from, to, items[i], image[i])
    ensures |r| == n
    ensures forall i :: 0 <= i < n ==> DerivesRun(to, image[i], r[i]) && RunMirrors(from, to, items[i], image[i], runs[i], r[i])
    decreases runs, n
  {
    hide ItemTo, AtomTo, RunMirrors;
    r := [];
    if n > 0 {
      var front := RunsTo(from, to, items, image, runs, n - 1);
      assert DerivesRun(from, items[n - 1], runs[n - 1]);
      var last := RunTo(from, to, items[n - 1], image[n - 1], runs[n - 1]);
      r := front + [last];
    }
  }

  lemma {:induction false} RunTo(from: Rules, to: Rules, item: Item, image: Item, run: Run) returns (r: Run)
    requires Rewrites(from, to) && ItemTo(from, to, item, image) && DerivesRun(from, item, run)
    ensures DerivesRun(to, image, r) && RunMirrors(from, to, item, image, run, r)
    decreases run, 1
  {
    var nodes := run.nodes;
    if Hoisted(from, to, item, image) {
      var inner := NodesTo(from, to, item.atom, item.atom, nodes, |nodes|);
      r := Wrapped(to, item.atom.name, image.atom.name, Run(inner));
    } else {
      var inner := NodesTo(from, to, item.atom, image.atom, nodes, |nodes|);
      r := Run(inner);
    }
  }

  // A run of the element, wrapped in one occurrence of the hoisted rule.
  lemma Wrapped(rules: Rules, element: string, name: string, run: Run) returns (r: Run)
    requires name in rules && rules[name] == RunBody(element)
    requires forall k :: 0 <= k < |run.nodes| ==> Derives(rules, RuleRef(element), run.nodes[k])
    ensures DerivesRun(rules, Item(RuleRef(name), UNIT), r) && r == Run([RuleNode(name, Pick(0, [run]))])
  {
    var pick := Pick(0, [run]);
    var item := Item(RuleRef(element), STAR);
    assert DerivesRun(rules, item, run);
    assert DerivesArm(rules, [item], [run]);
    assert DerivesPick(rules, RunBody(element), pick);
    assert Derives(rules, RuleRef(name), RuleNode(name, pick));
    r := Run([RuleNode(name, pick)]);
  }

  lemma {:induction false} NodesTo(from: Rules, to: Rules, atom: Atom, image: Atom, nodes: seq<Node>, n: nat)
    returns (r: seq<Node>)
    requires Rewrites(from, to) && AtomTo(from, to, atom, image) && n <= |nodes|
    requires forall k :: 0 <= k < |nodes| ==> Derives(from, atom, nodes[k])
    ensures |r| == n
    ensures forall k :: 0 <= k < n ==> Derives(to, image, r[k]) && NodeMirrors(from, to, atom, image, nodes[k], r[k])
    decreases nodes, n
  {
    hide AtomTo, NodeMirrors;
    r := [];
    if n > 0 {
      var front := NodesTo(from, to, atom, image, nodes, n - 1);
      var last := NodeTo(from, to, atom, image, nodes[n - 1]);
      r := front + [last];
    }
  }

  // ---------- And back ----------

  lemma {:induction false} NodeFrom(from: Rules, to: Rules, atom: Atom, image: Atom, node: Node) returns (r: Node)
    requires Rewrites(from, to) && AtomTo(from, to, atom, image) && Derives(to, image, node)
    ensures Derives(from, atom, r) && NodeMirrors(from, to, atom, image, r, node) && Spelling(r) == Spelling(node)
    decreases node
  {
    match atom {
      case RuleRef(name) =>
        var pick := PickFrom(from, to, from[name], to[name], node.pick);
        r := RuleNode(name, pick);
      case Group(body) =>
        var pick := PickFrom(from, to, body, if image.Group? then image.body else to[image.name], node.pick);
        r := GroupNode(pick);
      case _ =>
        r := node;
    }
    MirrorSpells(from, to, atom, image, r, node);
  }

  lemma {:induction false} PickFrom(from: Rules, to: Rules, body: Alternation, image: Alternation, pick: Pick)
    returns (r: Pick)
    requires Rewrites(from, to) && AltTo(from, to, body, image) && DerivesPick(to, image, pick)
    ensures DerivesPick(from, body, r) && PickMirrors(from, to, body, image, r, pick)
    decreases pick
  {
    assert ArmTo(from, to, body.arms[pick.arm], image.arms[pick.arm]);
    var runs := RunsFrom(from, to, body.arms[pick.arm].items, image.arms[pick.arm].items, pick.runs, |pick.runs|);
    r := Pick(pick.arm, runs);
  }

  lemma {:induction false} RunsFrom(from: Rules, to: Rules, items: seq<Item>, image: seq<Item>, runs: seq<Run>, n: nat)
    returns (r: seq<Run>)
    requires Rewrites(from, to) && DerivesArm(to, image, runs) && n <= |runs|
    requires |image| == |items| && forall i :: 0 <= i < |items| ==> ItemTo(from, to, items[i], image[i])
    ensures |r| == n
    ensures forall i :: 0 <= i < n ==> DerivesRun(from, items[i], r[i]) && RunMirrors(from, to, items[i], image[i], r[i], runs[i])
    decreases runs, n
  {
    hide ItemTo, AtomTo, RunMirrors;
    r := [];
    if n > 0 {
      var front := RunsFrom(from, to, items, image, runs, n - 1);
      assert DerivesRun(to, image[n - 1], runs[n - 1]);
      var last := RunFrom(from, to, items[n - 1], image[n - 1], runs[n - 1]);
      r := front + [last];
    }
  }

  lemma {:induction false} RunFrom(from: Rules, to: Rules, item: Item, image: Item, run: Run) returns (r: Run)
    requires Rewrites(from, to) && ItemTo(from, to, item, image) && DerivesRun(to, image, run)
    ensures DerivesRun(from, item, r) && RunMirrors(from, to, item, image, r, run)
    decreases run, 1
  {
    if Hoisted(from, to, item, image) {
      var below := Unwrapped(to, item.atom.name, image.atom.name, run);
      var inner := NodesFrom(from, to, item.atom, item.atom, below.nodes, |below.nodes|);
      r := Run(inner);
    } else {
      var inner := NodesFrom(from, to, item.atom, image.atom, run.nodes, |run.nodes|);
      r := Run(inner);
    }
  }

  lemma Unwrapped(rules: Rules, element: string, name: string, run: Run) returns (r: Run)
    requires name in rules && rules[name] == RunBody(element)
    requires DerivesRun(rules, Item(RuleRef(name), UNIT), run)
    ensures r < run && run == Run([RuleNode(name, Pick(0, [r]))])
    ensures forall k :: 0 <= k < |r.nodes| ==> Derives(rules, RuleRef(element), r.nodes[k])
  {
    var node := run.nodes[0];
    assert Derives(rules, RuleRef(name), node) && run.nodes == [node];
    assert DerivesPick(rules, RunBody(element), node.pick) && node.pick.arm == 0;
    var items := RunBody(element).arms[0].items;
    assert DerivesArm(rules, items, node.pick.runs) && |items| == 1;
    r := node.pick.runs[0];
    assert DerivesRun(rules, Item(RuleRef(element), STAR), r) && node.pick.runs == [r];
  }

  lemma {:induction false} NodesFrom(from: Rules, to: Rules, atom: Atom, image: Atom, nodes: seq<Node>, n: nat)
    returns (r: seq<Node>)
    requires Rewrites(from, to) && AtomTo(from, to, atom, image) && n <= |nodes|
    requires forall k :: 0 <= k < |nodes| ==> Derives(to, image, nodes[k])
    ensures |r| == n
    ensures forall k :: 0 <= k < n ==> Derives(from, atom, r[k]) && NodeMirrors(from, to, atom, image, r[k], nodes[k])
    decreases nodes, n
  {
    hide AtomTo, NodeMirrors;
    r := [];
    if n > 0 {
      var front := NodesFrom(from, to, atom, image, nodes, n - 1);
      var last := NodeFrom(from, to, atom, image, nodes[n - 1]);
      r := front + [last];
    }
  }

  /** A rewritten grammar gives every original rule the language it had. */
  lemma RewriteKeepsLanguages(from: Rules, to: Rules, name: string, text: string)
    requires Rewrites(from, to) && name in from
    ensures InLanguage(from, name, text) <==> InLanguage(to, name, text)
  {
    var atom := RuleRef(name);
    if InLanguage(from, name, text) {
      var node :| Derives(from, atom, node) && Spelling(node) == text;
      var r := NodeTo(from, to, atom, atom, node);
    }
    if InLanguage(to, name, text) {
      var node :| Derives(to, atom, node) && Spelling(node) == text;
      var r := NodeFrom(from, to, atom, atom, node);
    }
  }
}
