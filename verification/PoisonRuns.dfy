/**
 Conditional text runs: a run of an element stays raw text as long as it holds no
 poison character, because every arm whose value is not its text leads with one.
 */
module PoisonRuns {
  import opened Wrappers
  import opened Grammars
  import opened Reachability
  import opened Reduction
  import opened Liveness
  import opened ReducedText
  import opened Heights
  import opened Purging

  datatype Lead = NoLead | LeadChar(c: char) | EmptyLiteral

  /** The character an arm leads with: its first literal's, or the literal its first rule is. */
  function FirstChar(rules: Rules, arm: Sequence): Lead {
    if arm.items == [] then NoLead
    else
      match arm.items[0].atom
      case Literal(text) => if text == "" then EmptyLiteral else LeadChar(text[0])
      case RuleRef(name) =>
        var literal := if name in rules then SingleLiteral(rules[name]) else None;
        if literal.Some? && literal.value != "" then LeadChar(literal.value[0]) else NoLead
      case _ => NoLead
  }

  /** The rule an arm is, when it is one plain reference. */
  function ArmRef(arm: Sequence): Option<string> {
    if |arm.items| == 1 && arm.items[0].atom.RuleRef? && arm.items[0].quantifier == UNIT
    then Some(arm.items[0].atom.name)
    else None
  }

  /** One element under analysis; `sampled` are the rules over which its body, sampled, gave the text back. */
  datatype Element = Element(an: Analysis, name: string, sampled: set<string>) {
    ghost predicate Proven(arm: Sequence) {
      ArmRef(arm).Some? && an.Equiv(ArmRef(arm).value) && ArmRef(arm).value in sampled
    }

    ghost predicate Led(arm: Sequence, poison: set<char>) {
      var lead := FirstChar(an.rules, arm);
      lead.LeadChar? && lead.c in poison
    }

    /** The poison is exactly the leads of the arms not proven, there are some, and some arm is proven. */
    ghost predicate Licences(poison: set<char>) {
      && name in an.rules
      && (forall a ::
            0 <= a < |an.rules[name].arms| ==> Proven(an.rules[name].arms[a]) || Led(an.rules[name].arms[a], poison))
      && (exists a :: 0 <= a < |an.rules[name].arms| && Proven(an.rules[name].arms[a]))
      && (forall c :: c in poison ==>
            exists a :: 0 <= a < |an.rules[name].arms| && !Proven(an.rules[name].arms[a])
                        && FirstChar(an.rules, an.rules[name].arms[a]) == LeadChar(c))
      && poison != {}
    }

    /** The samples speak for the rule: over any text of it, the element's body gives that text. */
    ghost predicate SamplesHold() {
      forall t, text :: t in sampled && InLanguage(an.rules, t, text) ==>
        an.reducer.Apply(an.reducer.Body(name), [Text(text)], text) == Text(text)
    }

    /** The rules proven arms refer to lose no text of theirs. */
    ghost predicate ProvenLoseNothing() {
      name in an.rules ==>
        forall a :: 0 <= a < |an.rules[name].arms| && Proven(an.rules[name].arms[a]) ==>
          LosesNothing(an.rules, an.reducer, ArmRef(an.rules[name].arms[a]).value)
    }

    /** Every arm not proven leads with an item that must occur. */
    ghost predicate LeadsRequired() {
      name in an.rules ==>
        forall a :: 0 <= a < |an.rules[name].arms| && !Proven(an.rules[name].arms[a]) && an.rules[name].arms[a].items != [] ==>
          an.rules[name].arms[a].items[0].quantifier.lo >= 1
    }

    /** A tree of the element that picks a proven arm. */
    ghost predicate ThroughProven(node: Node) {
      && node.RuleNode? && node.name == name && name in an.rules && node.pick.arm < |an.rules[name].arms|
      && Proven(an.rules[name].arms[node.pick.arm])
    }
  }

  lemma LicenceShows(element: Element, poison: set<char>)
    requires element.Licences(poison)
    ensures var arms := element.an.rules[element.name].arms;
            && (exists a :: 0 <= a < |arms| && element.Proven(arms[a]))
            && (exists a :: 0 <= a < |arms| && !element.Proven(arms[a]))
  {
    var c :| c in poison;
  }

  /** A set licences the runs exactly when it is the leads of the arms not proven, each of which has one, beside some proven arm. */
  lemma LicencesExactly(element: Element, poison: set<char>)
    requires element.name in element.an.rules
    ensures var rules, arms := element.an.rules, element.an.rules[element.name].arms;
            element.Licences(poison) <==>
              && (exists arm :: arm in arms && element.Proven(arm)) && (exists arm :: arm in arms && !element.Proven(arm))
              && (forall arm :: arm in arms && !element.Proven(arm) ==> exists c :: FirstChar(rules, arm) == LeadChar(c))
              && (forall c :: c in poison <==> exists arm :: arm in arms && !element.Proven(arm) && FirstChar(rules, arm) == LeadChar(c))
  {
    var rules, arms := element.an.rules, element.an.rules[element.name].arms;
    if element.Licences(poison) {
      LicenceShows(element, poison);
      forall arm | arm in arms && !element.Proven(arm) ensures FirstChar(rules, arm).LeadChar? && FirstChar(rules, arm).c in poison {
        var a :| 0 <= a < |arms| && arms[a] == arm;
        assert element.Proven(arms[a]) || element.Led(arms[a], poison);
      }
      forall arm | arm in arms && !element.Proven(arm) ensures exists c :: FirstChar(rules, arm) == LeadChar(c) {
        assert FirstChar(rules, arm) == LeadChar(FirstChar(rules, arm).c);
      }
      forall c | c in poison ensures exists arm :: arm in arms && !element.Proven(arm) && FirstChar(rules, arm) == LeadChar(c) {
        var a :| 0 <= a < |arms| && !element.Proven(arms[a]) && FirstChar(rules, arms[a]) == LeadChar(c);
        assert arms[a] in arms;
      }
    }
  }

  /** The poison that licences raw runs of an element; none when an arm is neither proven nor led. */
  method Conditional(element: Element, equiv: map<string, bool>) returns (r: Result<Option<set<char>>, string>)
    requires element.name in element.an.rules
    requires forall t :: t in equiv ==> equiv[t] == element.an.Equiv(t)
    requires forall a :: 0 <= a < |element.an.rules[element.name].arms| ==>
               var ref := ArmRef(element.an.rules[element.name].arms[a]); ref.Some? ==> ref.value in equiv
    ensures r.Ok? && r.value.Some? ==> element.Licences(r.value.value)
    ensures r.Ok? && r.value.None? ==> forall poison :: !element.Licences(poison)
    ensures r.Err? ==>
              exists a :: 0 <= a < |element.an.rules[element.name].arms|
                          && FirstChar(element.an.rules, element.an.rules[element.name].arms[a]).EmptyLiteral?
  {
    var rules := element.an.rules;
    var arms := rules[element.name].arms;
    var poison: set<char> := {};
    var proven := false;
    var a := 0;
    while a < |arms|
      invariant 0 <= a <= |arms|
      invariant forall b :: 0 <= b < a ==> element.Proven(arms[b]) || element.Led(arms[b], poison)
      invariant proven <==> exists b :: 0 <= b < a && element.Proven(arms[b])
      invariant forall c :: c in poison ==>
                  exists b :: 0 <= b < a && !element.Proven(arms[b]) && FirstChar(rules, arms[b]) == LeadChar(c)
      invariant poison == {} ==> forall b :: 0 <= b < a ==> element.Proven(arms[b])
    {
      var ref := ArmRef(arms[a]);
      var ok := ref.Some? && equiv[ref.value] && ref.value in element.sampled;
      assert ok == element.Proven(arms[a]);
      if ok {
        proven := true;
      } else {
        match FirstChar(rules, arms[a]) {
          case NoLead => return Ok(None);
          case EmptyLiteral => return Err("string index out of range");
          case LeadChar(c) =>
            ghost var before := poison;
            poison := poison + {c};
            assert element.Led(arms[a], poison);
            assert forall b :: 0 <= b < a && element.Led(arms[b], before) ==> element.Led(arms[b], poison);
        }
      }
      a := a + 1;
    }
    if proven && poison != {} {
      return Ok(Some(poison));
    }
    forall p: set<char> ensures !element.Licences(p) {
      if element.Licences(p) {
        LicenceShows(element, p);
      }
    }
    r := Ok(None);
  }

  // ---------- Exactly when poison-free runs are proven ----------

  /** A run of the element, the poison nowhere in its text. */
  ghost predicate FreeRun(element: Element, poison: set<char>, run: Run) {
    DerivesRun(element.an.rules, Item(RuleRef(element.name), STAR), run) && Free(NodesText(run.nodes), poison)
  }

  /** A poison-free tree of the element, through any of its arms. */
  ghost predicate FreeArm(element: Element, poison: set<char>, a: nat, runs: seq<Run>) {
    && element.name in element.an.rules && a < |element.an.rules[element.name].arms|
    && DerivesArm(element.an.rules, element.an.rules[element.name].arms[a].items, runs) && Free(RunsText(runs), poison)
  }

  // One part of a poison-free run.
  lemma FreePartIsFreeArm(element: Element, poison: set<char>, run: Run, k: nat)
    requires FreeRun(element, poison, run) && k < |run.nodes|
    ensures run.nodes[k].RuleNode? && run.nodes[k].name == element.name
    ensures FreeArm(element, poison, run.nodes[k].pick.arm, run.nodes[k].pick.runs)
  {
    var node := run.nodes[k];
    assert Derives(element.an.rules, RuleRef(element.name), node);
    assert DerivesPick(element.an.rules, element.an.rules[element.name], node.pick);
    FreeNodes(run.nodes, poison);
    assert Free(Spelling(node), poison);
  }

  lemma FreeArmIsFreeRun(element: Element, poison: set<char>, a: nat, runs: seq<Run>)
    requires FreeArm(element, poison, a, runs)
    ensures FreeRun(element, poison, Once(RuleNode(element.name, Pick(a, runs))))
  {
    var node := RuleNode(element.name, Pick(a, runs));
    assert Derives(element.an.rules, RuleRef(element.name), node);
    hide Derives, DerivesArm;
    OneNode(element.an.reducer, node);
  }

  /** An arm not proven derives something with the poison taken out of the grammar. */
  ghost predicate Slips(element: Element, poison: set<char>, a: nat, runs: seq<Run>) {
    && element.name in element.an.rules && a < |element.an.rules[element.name].arms|
    && !element.Proven(element.an.rules[element.name].arms[a])
    && DerivesArm(Purge(element.an.rules, poison), PurgeArm(element.an.rules[element.name].arms[a], poison).items, runs)
  }

  ghost predicate AllThroughProven(element: Element, poison: set<char>) {
    forall run, k :: FreeRun(element, poison, run) && 0 <= k < |run.nodes| ==> element.ThroughProven(run.nodes[k])
  }

  lemma SlipIsFree(element: Element, poison: set<char>, a: nat, runs: seq<Run>)
    requires element.name in element.an.rules && a < |element.an.rules[element.name].arms|
    requires !element.Proven(element.an.rules[element.name].arms[a])
    ensures Slips(element, poison, a, runs) <==> FreeArm(element, poison, a, runs)
  {
    PurgedArm(element.an.rules, poison, element.an.rules[element.name].arms[a], runs);
  }

  // What slips through an arm is a poison-free run of one.
  lemma SlippingRun(element: Element, poison: set<char>, a: nat, runs: seq<Run>)
    requires Slips(element, poison, a, runs)
    ensures var run := Once(RuleNode(element.name, Pick(a, runs)));
            FreeRun(element, poison, run) && !element.ThroughProven(run.nodes[0])
  {
    SlipIsFree(element, poison, a, runs);
    FreeArmIsFreeRun(element, poison, a, runs);
  }

  // A part of a poison-free run comes through a proven arm, or slips through another.
  lemma FreePart(element: Element, poison: set<char>, run: Run, k: nat)
    requires FreeRun(element, poison, run) && k < |run.nodes|
    ensures run.nodes[k].RuleNode? && run.nodes[k].name == element.name
    ensures element.ThroughProven(run.nodes[k]) || Slips(element, poison, run.nodes[k].pick.arm, run.nodes[k].pick.runs)
  {
    FreePartIsFreeArm(element, poison, run, k);
    var pick := run.nodes[k].pick;
    if !element.Proven(element.an.rules[element.name].arms[pick.arm]) {
      SlipIsFree(element, poison, pick.arm, pick.runs);
    }
  }

  /** Poison-free runs come through proven arms only, exactly when no other arm derives anything without the poison. */
  lemma FreeRunsProvenExactly(element: Element, poison: set<char>)
    ensures AllThroughProven(element, poison) <==> forall a: nat, runs :: !Slips(element, poison, a, runs)
  {
    if AllThroughProven(element, poison) {
      forall a: nat, runs ensures !Slips(element, poison, a, runs) {
        if Slips(element, poison, a, runs) {
          SlippingRun(element, poison, a, runs);
        }
      }
    }
    if forall a: nat, runs :: !Slips(element, poison, a, runs) {
      forall run, k | FreeRun(element, poison, run) && 0 <= k < |run.nodes| ensures element.ThroughProven(run.nodes[k]) {
        FreePart(element, poison, run, k);
      }
    }
  }

  lemma SlipIsFinite(element: Element, poison: set<char>, heights: HeightMap, a: nat)
    requires WellFormed(element.an.rules) && Closed(element.an.rules, element.an.rules.Keys)
    requires Solves(Purge(element.an.rules, poison), heights)
    requires element.name in element.an.rules && a < |element.an.rules[element.name].arms|
    requires !element.Proven(element.an.rules[element.name].arms[a])
    ensures ArmCost(PurgeArm(element.an.rules[element.name].arms[a], poison).items, heights).Finite?
       <==> exists runs :: Slips(element, poison, a, runs)
  {
    var rules := element.an.rules;
    var arm := rules[element.name].arms[a];
    FreeArmIsFinite(rules, poison, heights, element.name, a);
    hide PurgeArm, ArmCost, Slips, DerivesArm, Free, Closed, WellFormed, Solves;
    if runs :| Slips(element, poison, a, runs) {
      SlipIsFree(element, poison, a, runs);
      assert DerivesArm(rules, arm.items, runs) && Free(RunsText(runs), poison);
    }
    if runs :| DerivesArm(rules, arm.items, runs) && Free(RunsText(runs), poison) {
      SlipIsFree(element, poison, a, runs);
    }
  }

  /** The rule heights of the grammar without the poison decide it. */
  lemma HeightsDecideProven(element: Element, poison: set<char>, heights: HeightMap)
    requires WellFormed(element.an.rules) && Closed(element.an.rules, element.an.rules.Keys)
    requires Solves(Purge(element.an.rules, poison), heights) && element.name in element.an.rules
    ensures var arms := element.an.rules[element.name].arms;
            AllThroughProven(element, poison) <==>
              forall a :: 0 <= a < |arms| && !element.Proven(arms[a]) ==>
                ArmCost(PurgeArm(arms[a], poison).items, heights).Infinite?
  {
    var arms := element.an.rules[element.name].arms;
    FreeRunsProvenExactly(element, poison);
    hide PurgeArm, ArmCost, AllThroughProven;
    forall a | 0 <= a < |arms| && !element.Proven(arms[a])
      ensures ArmCost(PurgeArm(arms[a], poison).items, heights).Finite? <==> exists runs :: Slips(element, poison, a, runs)
    {
      SlipIsFinite(element, poison, heights, a);
    }
  }

  // ---------- A required lead is enough ----------

  lemma FirstNodeFirst(nodes: seq<Node>, c: char)
    requires nodes != [] && Spelling(nodes[0]) != "" && Spelling(nodes[0])[0] == c
    ensures NodesText(nodes) != "" && NodesText(nodes)[0] == c
    decreases nodes
  {
    if |nodes| == 1 {
      assert nodes[..0] == [];
    } else {
      FirstNodeFirst(nodes[..|nodes| - 1], c);
    }
  }

  lemma FirstRunFirst(runs: seq<Run>, c: char)
    requires runs != [] && NodesText(runs[0].nodes) != "" && NodesText(runs[0].nodes)[0] == c
    ensures RunsText(runs) != "" && RunsText(runs)[0] == c
    decreases runs
  {
    if |runs| == 1 {
      assert runs[..0] == [];
    } else {
      FirstRunFirst(runs[..|runs| - 1], c);
    }
  }

  /** Wherever the first item of an arm occurs at all, the lead is the very first character of the arm's text. */
  lemma LeadIsFirst(rules: Rules, red: Reducer, arm: Sequence, runs: seq<Run>)
    requires DerivesArm(rules, arm.items, runs) && FirstChar(rules, arm).LeadChar? && runs[0].nodes != []
    ensures RunsText(runs) != "" && RunsText(runs)[0] == FirstChar(rules, arm).c
  {
    var c := FirstChar(rules, arm).c;
    var run := runs[0];
    assert DerivesRun(rules, arm.items[0], run);
    var node := run.nodes[0];
    assert Derives(rules, arm.items[0].atom, node);
    if arm.items[0].atom.RuleRef? {
      LiteralTree(rules, red, rules[arm.items[0].atom.name], node.pick);
    }
    assert Spelling(node) != "" && Spelling(node)[0] == c;
    FirstNodeFirst(run.nodes, c);
    FirstRunFirst(runs, c);
  }

  /** A required lead starts every tree of the arm. */
  lemma LeadIsSpelled(rules: Rules, red: Reducer, arm: Sequence, runs: seq<Run>)
    requires DerivesArm(rules, arm.items, runs) && FirstChar(rules, arm).LeadChar?
    requires arm.items[0].quantifier.lo >= 1
    ensures RunsText(runs) != "" && RunsText(runs)[0] == FirstChar(rules, arm).c
  {
    assert DerivesRun(rules, arm.items[0], runs[0]);
    LeadIsFirst(rules, red, arm, runs);
  }

  /** An atom that is one plain literal: the literal itself, or a reference to a rule with that one literal for a body. */
  ghost predicate PlainLiteral(rules: Rules, atom: Atom, text: string) {
    || atom == Literal(text)
    || (atom.RuleRef? && atom.name in rules && rules[atom.name] == Alternation([Sequence([Item(Literal(text), UNIT)])]))
  }

  /** When there is a lead, and when there is none: an empty arm, or a first item that is no plain literal. */
  lemma LeadExactly(rules: Rules, arm: Sequence)
    ensures FirstChar(rules, arm).LeadChar? <==>
              arm.items != [] && exists text :: text != "" && PlainLiteral(rules, arm.items[0].atom, text)
    ensures FirstChar(rules, arm).EmptyLiteral? <==> arm.items != [] && arm.items[0].atom == Literal("")
    ensures forall text :: arm.items != [] && text != "" && PlainLiteral(rules, arm.items[0].atom, text) ==>
              FirstChar(rules, arm) == LeadChar(text[0])
  {
    if arm.items != [] {
      var atom := arm.items[0].atom;
      match atom {
        case Literal(text) =>
          assert PlainLiteral(rules, atom, text);
        case RuleRef(name) =>
          if name in rules {
            SingleLiteralExactly(rules[name]);
            if SingleLiteral(rules[name]).Some? {
              assert PlainLiteral(rules, atom, SingleLiteral(rules[name]).value);
            }
          }
        case _ =>
      }
    }
  }

  /** An arm that is a reference: exactly one item, a rule, once. */
  lemma ArmRefExactly(arm: Sequence, name: string)
    ensures ArmRef(arm) == Some(name) <==> arm == Sequence([Item(RuleRef(name), UNIT)])
  {
  }

  /** With required leads, a run without poison was derived through proven arms only. */
  lemma PoisonFreeRunIsProven(element: Element, poison: set<char>)
    requires element.Licences(poison) && element.LeadsRequired()
    ensures AllThroughProven(element, poison)
  {
    var rules := element.an.rules;
    forall a: nat, runs ensures !Slips(element, poison, a, runs) {
      if Slips(element, poison, a, runs) {
        var arm := rules[element.name].arms[a];
        assert element.Led(arm, poison);
        PurgedArm(rules, poison, arm, runs);
        LeadIsSpelled(rules, element.an.reducer, arm, runs);
      }
    }
    FreeRunsProvenExactly(element, poison);
  }

  // ---------- The text a run contributes ----------

  /** A tree through a proven arm has its text as value, when what the arm refers to loses none. */
  lemma ProvenArmIsText(element: Element, pick: Pick)
    requires element.SamplesHold() && element.ProvenLoseNothing()
    requires element.name in element.an.rules && DerivesPick(element.an.rules, element.an.rules[element.name], pick)
    requires element.Proven(element.an.rules[element.name].arms[pick.arm])
    ensures ValueOf(element.an.reducer, element.name, pick) == Text(RunsText(pick.runs))
  {
    var an := element.an;
    var items := an.rules[element.name].arms[pick.arm].items;
    var run := pick.runs[0];
    assert pick.runs == [run] && DerivesRun(an.rules, items[0], run);
    var node := run.nodes[0];
    assert run.nodes == [node] && Derives(an.rules, items[0].atom, node);
    EquivIsKept(an, node.name, node.pick);
    KeptIsTextExactly(an.rules, an.reducer, node.name);
    var k: nat :| an.EquivWithin(node.name, k);
    assert pick.runs == [Once(node)];
    OneRun(an.reducer, node);
    assert InLanguage(an.rules, node.name, Spelling(node));
  }

  ghost predicate RunIsText(element: Element, run: Run) {
    element.an.reducer.Joined(NodesChannel(element.an.reducer, run.nodes)) == NodesText(run.nodes)
  }

  ghost predicate ArmIsText(element: Element, a: nat, runs: seq<Run>) {
    element.an.reducer.Shown(ValueOf(element.an.reducer, element.name, Pick(a, runs))) == RunsText(runs)
  }

  /** Every poison-free tree of the element shows as its own text. */
  ghost predicate ShowsFreeText(element: Element, poison: set<char>) {
    forall a: nat, runs :: FreeArm(element, poison, a, runs) ==> ArmIsText(element, a, runs)
  }

  /**
   The raw text of every poison-free run is what its elements' values join to, exactly
   when every poison-free tree of the element shows as its own text.
   */
  lemma FreeRunsAreTextExactly(element: Element, poison: set<char>)
    requires element.name !in element.an.reducer.dropped
    ensures (forall run :: FreeRun(element, poison, run) ==> RunIsText(element, run)) <==> ShowsFreeText(element, poison)
  {
    var red := element.an.reducer;
    if forall run :: FreeRun(element, poison, run) ==> RunIsText(element, run) {
      forall a: nat, runs | FreeArm(element, poison, a, runs) ensures ArmIsText(element, a, runs) {
        FreeArmIsFreeRun(element, poison, a, runs);
        OneIsText(element, Pick(a, runs));
      }
    }
    if ShowsFreeText(element, poison) {
      forall run | FreeRun(element, poison, run) ensures RunIsText(element, run) {
        forall k | 0 <= k < |run.nodes|
          ensures run.nodes[k].RuleNode? && run.nodes[k].name == element.name
          ensures red.Shown(ValueOf(red, element.name, run.nodes[k].pick)) == Spelling(run.nodes[k])
        {
          FreePartIsFreeArm(element, poison, run, k);
          var pick := run.nodes[k].pick;
          assert ArmIsText(element, pick.arm, pick.runs) && pick == Pick(pick.arm, pick.runs);
        }
        TextsJoin(red, element.name, run.nodes);
      }
    }
  }

  lemma OneIsText(element: Element, pick: Pick)
    requires element.name !in element.an.reducer.dropped
    ensures RunIsText(element, Once(RuleNode(element.name, pick))) <==> ArmIsText(element, pick.arm, pick.runs)
  {
    var red := element.an.reducer;
    var node := RuleNode(element.name, pick);
    OneNode(red, node);
    JoinedOne(red, ValueOf(red, element.name, pick));
    assert NodeChannel(red, node) == [ValueOf(red, element.name, pick)];
    assert pick == Pick(pick.arm, pick.runs);
  }

  /** Where the samples speak for the rule and proven arms lose nothing, only what slips through the others is left to ask about. */
  lemma ProvenLeavesSlips(element: Element, poison: set<char>)
    requires element.SamplesHold() && element.ProvenLoseNothing()
    ensures ShowsFreeText(element, poison)
       <==> forall a: nat, runs :: Slips(element, poison, a, runs) ==> ArmIsText(element, a, runs)
  {
    if element.name in element.an.rules {
      var arms := element.an.rules[element.name].arms;
      forall a: nat, runs | a < |arms| && !element.Proven(arms[a])
        ensures Slips(element, poison, a, runs) <==> FreeArm(element, poison, a, runs)
      {
        SlipIsFree(element, poison, a, runs);
      }
      forall a: nat, runs | FreeArm(element, poison, a, runs) && element.Proven(arms[a]) ensures ArmIsText(element, a, runs) {
        ProvenArmIsText(element, Pick(a, runs));
      }
    }
  }

  /** Then the raw text may stand for the elements' values in any channel that is joined. */
  lemma PoisonFreeRunIsText(element: Element, poison: set<char>, run: Run, before: seq<Value>, after: seq<Value>)
    requires element.name !in element.an.reducer.dropped
    requires ShowsFreeText(element, poison) && FreeRun(element, poison, run)
    ensures var red := element.an.reducer;
            (red.Joined(before + [Text(NodesText(run.nodes))] + after)
             == red.Joined(before + NodesChannel(red, run.nodes) + after))
  {
    var red := element.an.reducer;
    var text := Text(NodesText(run.nodes));
    FreeRunsAreTextExactly(element, poison);
    assert RunIsText(element, run);
    hide FreeRun, NodesChannel, NodesText;
    JoinedOne(red, text);
    JoinedAppend(red, before, [text]);
    JoinedAppend(red, before + [text], after);
    JoinedAppend(red, before, NodesChannel(red, run.nodes));
    JoinedAppend(red, before + NodesChannel(red, run.nodes), after);
  }

  lemma {:induction false} TextsJoin(red: Reducer, name: string, nodes: seq<Node>)
    requires name !in red.dropped
    requires forall k :: 0 <= k < |nodes| ==>
               nodes[k].RuleNode? && nodes[k].name == name && red.Shown(ValueOf(red, name, nodes[k].pick)) == Spelling(nodes[k])
    ensures red.Joined(NodesChannel(red, nodes)) == NodesText(nodes)
    decreases |nodes|
  {
    if nodes != [] {
      var last := nodes[|nodes| - 1];
      TextsJoin(red, name, nodes[..|nodes| - 1]);
      JoinedAppend(red, NodesChannel(red, nodes[..|nodes| - 1]), NodeChannel(red, last));
      JoinedOne(red, ValueOf(red, name, last.pick));
    }
  }

  // ---------- A lead that need not occur ----------

  // e ::= c | "x"? c c, reduced to the first of its arguments.
  const SLIP_RULES: Rules := map[
    "e" := Alternation([
      OneRef("c"),
      Sequence([Item(Literal("x"), OPTIONAL), Item(RuleRef("c"), UNIT), Item(RuleRef("c"), UNIT)])]),
    "c" := Alternation([Sequence([Item(CharClass({'a'}), UNIT)])])]

  const FIRST_ARGUMENT := Reducer({}, false, map["c" := Yield, "e" := Action(0)],
    (tag: nat, channel: seq<Value>, kept: string) => if channel == [] then Text("") else channel[0],
    (id: int) => "")

  const SLIP_ELEMENT := Element(Analysis(SLIP_RULES, FIRST_ARGUMENT, map["e" := {"c"}, "c" := {}]), "e", {"c"})

  function SlipC(): Node { RuleNode("c", Pick(0, [Once(Leaf("a"))])) }

  function SlipRuns(): seq<Run> { [Run([]), Once(SlipC()), Once(SlipC())] }

  // The second arm without its lead, spelling "aa".
  const SLIP_RUN := Once(RuleNode("e", Pick(1, SlipRuns())))

  /** The lead of an optional item licences a run that no proven arm derives, and whose text is not what its values join to. */
  lemma OptionalLeadSlipsThrough()
    ensures SLIP_ELEMENT.Licences({'x'}) && SLIP_ELEMENT.SamplesHold() && SLIP_ELEMENT.ProvenLoseNothing()
    ensures FreeRun(SLIP_ELEMENT, {'x'}, SLIP_RUN)
    ensures !SLIP_ELEMENT.ThroughProven(SLIP_RUN.nodes[0])
    ensures NodesText(SLIP_RUN.nodes) == "aa" && FIRST_ARGUMENT.Joined(NodesChannel(FIRST_ARGUMENT, SLIP_RUN.nodes)) == "a"
  {
    SlipIsLicensed();
    SlipDerives();
    SlipReduces();
    hide *;
    hide SLIP_RULES, FIRST_ARGUMENT;
  }

  lemma SlipIsLicensed()
    ensures SLIP_ELEMENT.Licences({'x'}) && SLIP_ELEMENT.SamplesHold() && SLIP_ELEMENT.ProvenLoseNothing()
    ensures !SLIP_ELEMENT.ThroughProven(SLIP_RUN.nodes[0])
  {
    var arms := SLIP_RULES["e"].arms;
    assert SLIP_ELEMENT.an.EquivWithin("c", 0);
    assert SLIP_ELEMENT.Proven(arms[0]) && !SLIP_ELEMENT.Proven(arms[1]) && SLIP_ELEMENT.Led(arms[1], {'x'});
  }

  // The one tree of c, and what it shows and reduces to.
  lemma SlipCIs()
    ensures Derives(SLIP_RULES, RuleRef("c"), SlipC()) && Spelling(SlipC()) == "a"
    ensures NodeChannel(FIRST_ARGUMENT, SlipC()) == [Text("a")]
  {
    OneRunDerives(SLIP_RULES, CharClass({'a'}), Leaf("a"));
    OneRun(FIRST_ARGUMENT, Leaf("a"));
  }

  lemma SlipRunsAre()
    ensures RunsText(SlipRuns()) == "aa" && RunsChannel(FIRST_ARGUMENT, SlipRuns()) == [Text("a"), Text("a")]
  {
    SlipCIs();
    hide SlipC, Spelling, NodeChannel;
    var runs := SlipRuns();
    OneRun(FIRST_ARGUMENT, SlipC());
    OneNode(FIRST_ARGUMENT, SlipC());
    assert runs[..2] == [Run([]), Once(SlipC())] && runs[..2][..1] == [Run([])] && [Run([])][..0] == [];
    assert RunsText([Run([])]) == "" && RunsChannel(FIRST_ARGUMENT, [Run([])]) == [];
    assert RunsText(runs[..2]) == "a" && RunsChannel(FIRST_ARGUMENT, runs[..2]) == [Text("a")];
  }

  lemma SlipDerives()
    ensures FreeRun(SLIP_ELEMENT, {'x'}, SLIP_RUN) && NodesText(SLIP_RUN.nodes) == "aa"
  {
    SlipCIs();
    SlipRunsAre();
    hide SlipC, Spelling, RunsText;
    var runs := SlipRuns();
    var items := SLIP_RULES["e"].arms[1].items;
    assert DerivesRun(SLIP_RULES, items[0], runs[0]) && DerivesRun(SLIP_RULES, items[1], runs[1]);
    assert DerivesRun(SLIP_RULES, items[2], runs[2]);
    SlipArm(runs);
  }

  lemma SlipArm(runs: seq<Run>)
    requires DerivesArm(SLIP_RULES, SLIP_RULES["e"].arms[1].items, runs) && RunsText(runs) == "aa"
    ensures FreeRun(SLIP_ELEMENT, {'x'}, Once(RuleNode("e", Pick(1, runs))))
    ensures NodesText([RuleNode("e", Pick(1, runs))]) == "aa"
  {
    var node := RuleNode("e", Pick(1, runs));
    assert Derives(SLIP_RULES, RuleRef("e"), node);
    OneNode(FIRST_ARGUMENT, node);
  }

  lemma SlipReduces()
    ensures FIRST_ARGUMENT.Joined(NodesChannel(FIRST_ARGUMENT, SLIP_RUN.nodes)) == "a"
  {
    SlipRunsAre();
    hide SlipRuns, RunsText, RunsChannel;
    var node := RuleNode("e", Pick(1, SlipRuns()));
    OneNode(FIRST_ARGUMENT, node);
    JoinedOne(FIRST_ARGUMENT, Text("a"));
    assert NodeChannel(FIRST_ARGUMENT, node) == [ValueOf(FIRST_ARGUMENT, "e", Pick(1, SlipRuns()))];
  }
}
