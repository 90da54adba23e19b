/**
 The text of the model a parse builds, against the text that was parsed.

 A rule without references becomes a class holding its text, a rule with several
 non-empty arms the model of the arm that matched, any other rule a record whose fields
 are its items but for the plain literals.
 */
module RoundTrip {
  import opened Wrappers
  import opened Grammars
  import Emission

  // ---------- How a rule is bound ----------

  function NonEmptyArms(arms: seq<Sequence>): seq<Sequence> {
    if arms == [] then []
    else NonEmptyArms(arms[..|arms| - 1]) + if arms[|arms| - 1].items == [] then [] else [arms[|arms| - 1]]
  }

  predicate HasEmptyArm(body: Alternation) {
    exists a :: 0 <= a < |body.arms| && body.arms[a].items == []
  }

  predicate IsText(body: Alternation) {
    AltRefs(body) == {}
  }

  predicate IsChoice(body: Alternation) {
    !IsText(body) && |NonEmptyArms(body.arms)| > 1
  }

  predicate UnitRef(arm: Sequence) {
    |arm.items| == 1 && arm.items[0].atom.RuleRef? && arm.items[0].quantifier == UNIT
  }

  /** Every arm of a choice is one plain reference, the others having been hoisted to rules of their own. */
  predicate Hoisted(rules: Rules) {
    forall name, a :: name in rules && IsChoice(rules[name]) && 0 <= a < |rules[name].arms| && rules[name].arms[a].items != [] ==>
      UnitRef(rules[name].arms[a])
  }

  datatype Mode = Structural | Verbatim | One | Several

  predicate Repeats(quantifier: Quantifier) {
    quantifier.hi.None? || quantifier.hi.value > 1
  }

  /** A group of plain references is bound like a reference, any other as its text. */
  predicate RefLike(atom: Atom) {
    || atom.RuleRef?
    || (atom.Group? && atom.body.arms != [] && forall a :: 0 <= a < |atom.body.arms| ==> UnitRef(atom.body.arms[a]))
  }

  function ModeOf(item: Item): Mode {
    if item.atom.Literal? && item.quantifier == UNIT then Structural
    else if !RefLike(item.atom) then Verbatim
    else if Repeats(item.quantifier) then Several
    else One
  }

  lemma {:induction false} SomeArmHasItems(arms: seq<Sequence>)
    ensures |NonEmptyArms(arms)| > 0 <==> exists j :: 0 <= j < |arms| && arms[j].items != []
    decreases |arms|
  {
    if arms != [] {
      var front := arms[..|arms| - 1];
      SomeArmHasItems(front);
      assert forall j :: 0 <= j < |front| ==> arms[j] == front[j];
    }
  }

  lemma {:induction false} TwoArmsHaveItems(arms: seq<Sequence>)
    ensures |NonEmptyArms(arms)| > 1 <==> exists i, j :: 0 <= i < j < |arms| && arms[i].items != [] && arms[j].items != []
    decreases |arms|
  {
    if arms != [] {
      var front := arms[..|arms| - 1];
      TwoArmsHaveItems(front);
      SomeArmHasItems(front);
      assert |NonEmptyArms(arms)| == |NonEmptyArms(front)| + if arms[|arms| - 1].items == [] then 0 else 1;
      hide NonEmptyArms;
      assert forall j :: 0 <= j < |front| ==> arms[j] == front[j];
    }
  }

  /**
   How a rule that names others is bound: a choice when two of its
   arms have items; an item has no field when it is one plain literal, and is bound as a
   model or a run of models when it is a reference or a group of nothing but references.
   */
  lemma BoundAs(body: Alternation, item: Item)
    ensures IsChoice(body) <==>
              && !IsText(body)
              && exists i, j :: 0 <= i < j < |body.arms| && body.arms[i].items != [] && body.arms[j].items != []
    ensures HasEmptyArm(body) <==> Sequence([]) in body.arms
    ensures ModeOf(item).Structural? <==> exists text :: item == Item(Literal(text), UNIT)
    ensures var plain := item.atom.RuleRef?
                         || (item.atom.Group? && item.atom.body.arms != []
                             && forall arm :: arm in item.atom.body.arms ==>
                                  exists name :: arm == Sequence([Item(RuleRef(name), UNIT)]));
            && (ModeOf(item).Several? <==> plain && (item.quantifier.hi.Some? ==> item.quantifier.hi.value >= 2))
            && (ModeOf(item).One? <==> plain && item.quantifier.hi.Some? && item.quantifier.hi.value <= 1)
  {
    TwoArmsHaveItems(body.arms);
    if HasEmptyArm(body) {
      var a :| 0 <= a < |body.arms| && body.arms[a].items == [];
      assert body.arms[a] == Sequence([]);
    }
    if ModeOf(item).Structural? {
      assert item == Item(Literal(item.atom.text), UNIT);
    }
    if item.atom.Group? {
      PlainGroup(item.atom.body);
    }
  }

  lemma PlainGroup(body: Alternation)
    ensures RefLike(Group(body)) <==>
              body.arms != [] && forall arm :: arm in body.arms ==> exists name :: arm == Sequence([Item(RuleRef(name), UNIT)])
  {
    forall arm | arm in body.arms ensures UnitRef(arm) <==> exists name :: arm == Sequence([Item(RuleRef(name), UNIT)]) {
      if UnitRef(arm) {
        assert arm.items == [arm.items[0]];
        assert arm == Sequence([Item(RuleRef(arm.items[0].atom.name), UNIT)]);
      }
    }
    if RefLike(Group(body)) {
      forall arm | arm in body.arms ensures UnitRef(arm) {
        var a :| 0 <= a < |body.arms| && body.arms[a] == arm;
      }
    }
  }

  // ---------- The model of a tree ----------

  /** The model a rule's or a group's tree builds; none when a choice matched its empty arm. */
  function Built(rules: Rules, node: Node): Option<Emission.Value>
    decreases node
  {
    match node
    case Leaf(text) => Some(Emission.Text(text))
    case GroupNode(pick) => if |pick.runs| == 1 && |pick.runs[0].nodes| == 1 then Built(rules, pick.runs[0].nodes[0]) else None
    case RuleNode(name, pick) =>
      if name !in rules || pick.arm >= |rules[name].arms| || |rules[name].arms[pick.arm].items| != |pick.runs| then None
      else
        var body := rules[name];
        if IsText(body) then Some(Emission.Model(Emission.ValueStr(RunsText(pick.runs))))
        else if IsChoice(body) then
          if |pick.runs| == 1 && |pick.runs[0].nodes| == 1 then Built(rules, pick.runs[0].nodes[0]) else None
        else Some(Emission.Model(Emission.Record(HasEmptyArm(body), BuiltSlots(rules, body.arms[pick.arm].items, pick.runs))))
  }

  function BuiltSlots(rules: Rules, items: seq<Item>, runs: seq<Run>): (slots: seq<Emission.Slot>)
    requires |items| == |runs|
    ensures |slots| == |runs|
    decreases runs
  {
    if runs == [] then []
    else
      var last := |runs| - 1;
      BuiltSlots(rules, items[..last], runs[..last]) + [BuiltSlot(rules, items[last], runs[last])]
  }

  function BuiltSlot(rules: Rules, item: Item, run: Run): Emission.Slot
    decreases run
  {
    match ModeOf(item)
    case Structural => Emission.StructuralLiteral(item.atom.text)
    case Verbatim =>
      var text := NodesText(run.nodes);
      Emission.Bound("", if item.quantifier.lo == 0 && text == "" then None else Some(Emission.Text(text)))
    case One => Emission.Bound("", if run.nodes == [] then None else Built(rules, run.nodes[0]))
    case Several => Emission.Bound("", Some(Emission.Many(BuiltAll(rules, run.nodes))))
  }

  function BuiltAll(rules: Rules, nodes: seq<Node>): seq<Emission.Value>
    decreases nodes
  {
    if nodes == [] then []
    else
      var last := |nodes| - 1;
      BuiltAll(rules, nodes[..last]) + match Built(rules, nodes[last]) case Some(value) => [value] case None => []
  }

  ghost function Emitted(value: Option<Emission.Value>): string {
    if value.Some? then Emission.Emit(value.value) else ""
  }

  ghost predicate Fine(value: Option<Emission.Value>) {
    value.Some? ==> Emission.Emittable(value.value)
  }

  // ---------- Trees whose text the model keeps ----------

  lemma PickParts(rules: Rules, body: Alternation, pick: Pick)
    requires DerivesPick(rules, body, pick)
    ensures pick.arm < |body.arms| && |body.arms[pick.arm].items| == |pick.runs|
    ensures DerivesArm(rules, body.arms[pick.arm].items, pick.runs)
  {
  }

  /** The record reads as its rule's empty arm although text was matched. */
  ghost predicate Swallowed(rules: Rules, name: string, pick: Pick)
    requires name in rules && DerivesPick(rules, rules[name], pick)
  {
    PickParts(rules, rules[name], pick);
    && !IsText(rules[name]) && !IsChoice(rules[name]) && HasEmptyArm(rules[name]) && RunsText(pick.runs) != ""
    && forall k :: 0 <= k < |pick.runs| ==> Unset(rules, rules[name].arms[pick.arm].items[k], pick.runs[k])
  }

  /** The item leaves no field set. */
  ghost predicate Unset(rules: Rules, item: Item, run: Run) {
    match ModeOf(item)
    case Structural => true
    case Verbatim => item.quantifier.lo == 0 && NodesText(run.nodes) == ""
    case One => run.nodes == [] || Built(rules, run.nodes[0]).None?
    case Several => false
  }

  /** No record of the tree is swallowed, down to what is bound as text. */
  ghost predicate Whole(rules: Rules, atom: Atom, node: Node)
    requires Derives(rules, atom, node)
    decreases node
  {
    match atom
    case RuleRef(name) =>
      IsText(rules[name]) || (!Swallowed(rules, name, node.pick) && WholePick(rules, rules[name], node.pick))
    case Group(body) => RefLike(atom) ==> WholePick(rules, body, node.pick)
    case _ => true
  }

  ghost predicate WholePick(rules: Rules, body: Alternation, pick: Pick)
    requires DerivesPick(rules, body, pick)
    decreases pick
  {
    FirstWhole(rules, body.arms[pick.arm].items, pick.runs, |pick.runs|)
  }

  // The first `n` runs are whole.
  ghost predicate FirstWhole(rules: Rules, items: seq<Item>, runs: seq<Run>, n: nat)
    requires DerivesArm(rules, items, runs) && n <= |runs|
    decreases runs, 0
  {
    forall k :: 0 <= k < n ==> WholeRun(rules, items[k], runs[k])
  }

  ghost predicate WholeRun(rules: Rules, item: Item, run: Run)
    requires DerivesRun(rules, item, run)
    decreases run
  {
    ModeOf(item).One? || ModeOf(item).Several? ==> NodesWhole(rules, item.atom, run.nodes, |run.nodes|)
  }

  ghost predicate NodesWhole(rules: Rules, atom: Atom, nodes: seq<Node>, n: nat)
    requires n <= |nodes| && forall k :: 0 <= k < |nodes| ==> Derives(rules, atom, nodes[k])
    decreases nodes
  {
    forall k :: 0 <= k < n ==> Whole(rules, atom, nodes[k])
  }

  /** Emitting keeps the text when nothing is swallowed, and loses some otherwise. */
  ghost predicate Keeps(text: string, emitted: string, whole: bool) {
    |emitted| <= |text| && (if whole then emitted == text else |emitted| < |text|)
  }

  lemma KeepsAppend(text: string, emitted: string, whole: bool, more: string, added: string, wholeToo: bool)
    requires Keeps(text, emitted, whole) && Keeps(more, added, wholeToo)
    ensures Keeps(text + more, emitted + added, whole && wholeToo)
  {
  }

  lemma {:induction false} NodeKeeps(rules: Rules, atom: Atom, node: Node)
    requires Hoisted(rules) && Derives(rules, atom, node) && RefLike(atom)
    ensures Fine(Built(rules, node)) && Keeps(Spelling(node), Emitted(Built(rules, node)), Whole(rules, atom, node))
    decreases node
  {
    match atom {
      case RuleRef(name) =>
        var body := rules[name];
        PickParts(rules, body, node.pick);
        if IsText(body) {
          assert Built(rules, node) == Some(Emission.Model(Emission.ValueStr(RunsText(node.pick.runs))));
          Emission.OthersSpell([], RunsText(node.pick.runs));
        } else if IsChoice(body) {
          ChoiceKeeps(rules, body, node.pick);
        } else {
          RecordKeeps(rules, name, node.pick);
        }
      case Group(body) =>
        assert UnitRef(body.arms[node.pick.arm]);
        ChoiceKeeps(rules, body, node.pick);
    }
  }

  // The one reference of the arm that matched, or nothing.
  lemma {:induction false} ChoiceKeeps(rules: Rules, body: Alternation, pick: Pick)
    requires Hoisted(rules) && DerivesPick(rules, body, pick)
    requires body.arms[pick.arm].items == [] || UnitRef(body.arms[pick.arm])
    ensures var value := if |pick.runs| == 1 && |pick.runs[0].nodes| == 1 then Built(rules, pick.runs[0].nodes[0]) else None;
            Fine(value) && Keeps(RunsText(pick.runs), Emitted(value), WholePick(rules, body, pick))
    decreases pick
  {
    hide *;
    PickParts(rules, body, pick);
    if body.arms[pick.arm].items == [] {
      EmptyChoice(rules, body, pick);
    } else {
      var node := ChoiceParts(rules, body, pick);
      NodeKeeps(rules, body.arms[pick.arm].items[0].atom, node);
      OneSpelled(pick.runs, node);
    }
  }

  lemma EmptyChoice(rules: Rules, body: Alternation, pick: Pick)
    requires DerivesPick(rules, body, pick) && pick.arm < |body.arms| && body.arms[pick.arm].items == []
    ensures pick.runs == [] && RunsText(pick.runs) == "" && WholePick(rules, body, pick)
    ensures Fine(None) && Keeps("", Emitted(None), true)
  {
    PickParts(rules, body, pick);
    assert FirstWhole(rules, body.arms[pick.arm].items, pick.runs, 0);
  }

  lemma ChoiceParts(rules: Rules, body: Alternation, pick: Pick) returns (node: Node)
    requires DerivesPick(rules, body, pick) && pick.arm < |body.arms| && UnitRef(body.arms[pick.arm])
    ensures body.arms[pick.arm].items != [] && |pick.runs| == 1 && pick.runs[0].nodes == [node]
    ensures node < pick
    ensures var atom := body.arms[pick.arm].items[0].atom;
            RefLike(atom) && Derives(rules, atom, node) && (WholePick(rules, body, pick) <==> Whole(rules, atom, node))
  {
    PickParts(rules, body, pick);
    var items := body.arms[pick.arm].items;
    assert DerivesRun(rules, items[0], pick.runs[0]);
    node := pick.runs[0].nodes[0];
    assert pick.runs[0].nodes == [node] && Derives(rules, items[0].atom, node);
    assert ModeOf(items[0]).One?;
    hide Whole, Derives;
    assert WholeRun(rules, items[0], pick.runs[0]) <==> Whole(rules, items[0].atom, node);
    assert FirstWhole(rules, items, pick.runs, 1) <==> WholeRun(rules, items[0], pick.runs[0]);
  }

  lemma OneSpelled(runs: seq<Run>, node: Node)
    requires |runs| == 1 && runs[0].nodes == [node]
    ensures RunsText(runs) == NodesText([node]) == Spelling(node)
  {
    assert runs[..0] == [] && [node][..0] == [];
  }

  lemma {:induction false} RecordKeeps(rules: Rules, name: string, pick: Pick)
    requires Hoisted(rules) && name in rules && DerivesPick(rules, rules[name], pick)
    requires !IsText(rules[name]) && !IsChoice(rules[name])
    ensures var value := Built(rules, RuleNode(name, pick));
            && Fine(value)
            && Keeps(RunsText(pick.runs), Emitted(value),
                     !Swallowed(rules, name, pick) && WholePick(rules, rules[name], pick))
    decreases pick, 0
  {
    var items := rules[name].arms[pick.arm].items;
    PickParts(rules, rules[name], pick);
    var slots := BuiltSlots(rules, items, pick.runs);
    RunsKeep(rules, items, pick.runs, |pick.runs|);
    assert items[..|items|] == items && pick.runs[..|pick.runs|] == pick.runs;
    assert Built(rules, RuleNode(name, pick)) == Some(Emission.Model(Emission.Record(HasEmptyArm(rules[name]), slots)));
    hide Built, FirstWhole, BuiltSlots, WholeRun, RunsText, IsText, IsChoice, DerivesPick, DerivesArm, Unset, Hoisted;
    Emission.RecordSpells(HasEmptyArm(rules[name]), slots);
    SetExactly(rules, items, pick.runs);
  }

  lemma {:induction false} SetExactly(rules: Rules, items: seq<Item>, runs: seq<Run>)
    requires |items| == |runs|
    ensures var slots := BuiltSlots(rules, items, runs);
            Emission.SomeFieldSet(slots) <==> !(forall k :: 0 <= k < |runs| ==> Unset(rules, items[k], runs[k]))
    decreases |runs|
  {
    if runs != [] {
      var last := |runs| - 1;
      SetExactly(rules, items[..last], runs[..last]);
      var front, slot := BuiltSlots(rules, items[..last], runs[..last]), BuiltSlot(rules, items[last], runs[last]);
      assert BuiltSlots(rules, items, runs) == front + [slot];
      MoreSet(front, slot);
      assert forall k :: 0 <= k < last ==> items[..last][k] == items[k] && runs[..last][k] == runs[k];
    }
  }

  lemma MoreSet(front: seq<Emission.Slot>, slot: Emission.Slot)
    ensures Emission.SomeFieldSet(front + [slot]) <==> Emission.SomeFieldSet(front) || (slot.Bound? && slot.value.Some?)
  {
    assert (front + [slot])[|front|] == slot;
    if Emission.SomeFieldSet(front) {
      var one :| one in front && one.Bound? && one.value.Some?;
      assert one in front + [slot];
    }
  }

  lemma {:induction false} RunsKeep(rules: Rules, items: seq<Item>, runs: seq<Run>, n: nat)
    requires Hoisted(rules) && DerivesArm(rules, items, runs) && n <= |runs| == |items|
    ensures var slots := BuiltSlots(rules, items[..n], runs[..n]);
            SlotsFine(slots) && Keeps(RunsText(runs[..n]), Emission.SlotsText(slots), FirstWhole(rules, items, runs, n))
    decreases runs, n
  {
    hide *;
    if n == 0 {
      NoRunKeeps(rules, items, runs);
    } else {
      RunsKeep(rules, items, runs, n - 1);
      RunOfArm(rules, items, runs, n);
      RunKeeps(rules, items[n - 1], runs[n - 1]);
      var front, slot := BuiltSlots(rules, items[..n - 1], runs[..n - 1]), BuiltSlot(rules, items[n - 1], runs[n - 1]);
      SlotsStep(rules, items, runs, n);
      KeepsAppend(RunsText(runs[..n - 1]), Emission.SlotsText(front), FirstWhole(rules, items, runs, n - 1),
                  NodesText(runs[n - 1].nodes), Emission.SlotText(slot), WholeRun(rules, items[n - 1], runs[n - 1]));
    }
  }

  ghost predicate SlotsFine(slots: seq<Emission.Slot>) {
    forall k :: 0 <= k < |slots| ==> Emission.SlotEmittable(slots[k])
  }

  lemma NoRunKeeps(rules: Rules, items: seq<Item>, runs: seq<Run>)
    requires DerivesArm(rules, items, runs)
    ensures var slots := BuiltSlots(rules, items[..0], runs[..0]);
            SlotsFine(slots) && Keeps(RunsText(runs[..0]), Emission.SlotsText(slots), FirstWhole(rules, items, runs, 0))
  {
  }

  lemma RunOfArm(rules: Rules, items: seq<Item>, runs: seq<Run>, n: nat)
    requires DerivesArm(rules, items, runs) && 0 < n <= |runs|
    ensures n <= |items| && DerivesRun(rules, items[n - 1], runs[n - 1])
    ensures FirstWhole(rules, items, runs, n) <==> FirstWhole(rules, items, runs, n - 1) && WholeRun(rules, items[n - 1], runs[n - 1])
  {
    hide WholeRun;
    assert DerivesRun(rules, items[n - 1], runs[n - 1]);
  }

  lemma SlotsStep(rules: Rules, items: seq<Item>, runs: seq<Run>, n: nat)
    requires |items| == |runs| && 0 < n <= |runs|
    ensures var front, slot := BuiltSlots(rules, items[..n - 1], runs[..n - 1]), BuiltSlot(rules, items[n - 1], runs[n - 1]);
            && BuiltSlots(rules, items[..n], runs[..n]) == front + [slot]
            && Emission.SlotsText(front + [slot]) == Emission.SlotsText(front) + Emission.SlotText(slot)
            && (SlotsFine(front + [slot]) <==> SlotsFine(front) && Emission.SlotEmittable(slot))
            && RunsText(runs[..n]) == RunsText(runs[..n - 1]) + NodesText(runs[n - 1].nodes)
  {
    hide BuiltSlot, NodesText, Emission.SlotText, Emission.SlotEmittable;
    var front, slot := BuiltSlots(rules, items[..n - 1], runs[..n - 1]), BuiltSlot(rules, items[n - 1], runs[n - 1]);
    assert runs[..n][..n - 1] == runs[..n - 1] && items[..n][..n - 1] == items[..n - 1];
    assert (front + [slot])[..n - 1] == front;
    assert forall k :: 0 <= k < |front| ==> (front + [slot])[k] == front[k];
    assert (front + [slot])[|front|] == slot;
  }

  lemma {:induction false} RunKeeps(rules: Rules, item: Item, run: Run)
    requires Hoisted(rules) && DerivesRun(rules, item, run)
    ensures var slot := BuiltSlot(rules, item, run);
            Emission.SlotEmittable(slot) && Keeps(NodesText(run.nodes), Emission.SlotText(slot), WholeRun(rules, item, run))
    decreases run
  {
    match ModeOf(item) {
      case Structural =>
        LiteralKeeps(rules, item, run);
      case Verbatim =>
        Emission.OthersSpell([], NodesText(run.nodes));
      case One =>
        OneKeeps(rules, item, run);
      case Several =>
        NodesKeep(rules, item.atom, run.nodes, |run.nodes|);
        SeveralKeep(rules, item, run);
    }
  }

  lemma LiteralKeeps(rules: Rules, item: Item, run: Run)
    requires DerivesRun(rules, item, run) && ModeOf(item).Structural?
    ensures NodesText(run.nodes) == item.atom.text
  {
    var node := run.nodes[0];
    assert run.nodes == [node] && Derives(rules, item.atom, node);
    assert [node][..0] == [];
  }

  lemma {:induction false} OneKeeps(rules: Rules, item: Item, run: Run)
    requires Hoisted(rules) && DerivesRun(rules, item, run) && ModeOf(item).One?
    ensures var slot := BuiltSlot(rules, item, run);
            Emission.SlotEmittable(slot) && Keeps(NodesText(run.nodes), Emission.SlotText(slot), WholeRun(rules, item, run))
    decreases run, 0
  {
    hide *;
    OneNode(rules, item, run);
    if run.nodes != [] {
      NodeKeeps(rules, item.atom, run.nodes[0]);
      OneSlotKeeps(rules, item, run);
    } else {
      NoNodeKeeps(rules, item, run);
    }
  }

  lemma OneNode(rules: Rules, item: Item, run: Run)
    requires DerivesRun(rules, item, run) && ModeOf(item).One?
    ensures RefLike(item.atom) && |run.nodes| <= 1 && (run.nodes != [] ==> Derives(rules, item.atom, run.nodes[0]))
  {
  }

  lemma NoNodeKeeps(rules: Rules, item: Item, run: Run)
    requires DerivesRun(rules, item, run) && ModeOf(item).One? && run.nodes == []
    ensures var slot := BuiltSlot(rules, item, run);
            Emission.SlotEmittable(slot) && Keeps(NodesText(run.nodes), Emission.SlotText(slot), WholeRun(rules, item, run))
  {
  }

  lemma OneSlotKeeps(rules: Rules, item: Item, run: Run)
    requires DerivesRun(rules, item, run) && ModeOf(item).One? && |run.nodes| == 1
    requires Derives(rules, item.atom, run.nodes[0])
    requires var node := run.nodes[0];
             Fine(Built(rules, node)) && Keeps(Spelling(node), Emitted(Built(rules, node)), Whole(rules, item.atom, node))
    ensures var slot := BuiltSlot(rules, item, run);
            Emission.SlotEmittable(slot) && Keeps(NodesText(run.nodes), Emission.SlotText(slot), WholeRun(rules, item, run))
  {
    hide Built, Keeps, Spelling, NodesText, Derives, Whole;
    var node := run.nodes[0];
    assert run.nodes == [node];
    OneText(node);
    assert WholeRun(rules, item, run) <==> Whole(rules, item.atom, node);
    assert BuiltSlot(rules, item, run) == Emission.Bound("", Built(rules, node));
  }

  lemma OneText(node: Node)
    ensures NodesText([node]) == Spelling(node)
  {
    assert [node][..0] == [];
  }

  lemma SeveralKeep(rules: Rules, item: Item, run: Run)
    requires DerivesRun(rules, item, run) && ModeOf(item).Several?
    requires var values := BuiltAll(rules, run.nodes[..|run.nodes|]);
             && ValuesFine(values)
             && Keeps(NodesText(run.nodes[..|run.nodes|]), Emission.ElementsText(values),
                      NodesWhole(rules, item.atom, run.nodes, |run.nodes|))
    ensures var slot := BuiltSlot(rules, item, run);
            Emission.SlotEmittable(slot) && Keeps(NodesText(run.nodes), Emission.SlotText(slot), WholeRun(rules, item, run))
  {
    hide Keeps, BuiltAll, NodesText, NodesWhole, Derives;
    assert run.nodes[..|run.nodes|] == run.nodes;
    Emission.OthersSpell(BuiltAll(rules, run.nodes), "");
    assert BuiltSlot(rules, item, run) == Emission.Bound("", Some(Emission.Many(BuiltAll(rules, run.nodes))));
  }

  lemma {:induction false} NodesKeep(rules: Rules, atom: Atom, nodes: seq<Node>, n: nat)
    requires Hoisted(rules) && RefLike(atom) && n <= |nodes|
    requires forall k :: 0 <= k < |nodes| ==> Derives(rules, atom, nodes[k])
    ensures var values := BuiltAll(rules, nodes[..n]);
            ValuesFine(values) && Keeps(NodesText(nodes[..n]), Emission.ElementsText(values), NodesWhole(rules, atom, nodes, n))
    decreases nodes, n
  {
    hide *;
    if n == 0 {
      NoNodesKeep(rules, atom, nodes);
    } else {
      NodesKeep(rules, atom, nodes, n - 1);
      NodeKeeps(rules, atom, nodes[n - 1]);
      NodesStep(rules, nodes, n);
      NodesWholeStep(rules, atom, nodes, n);
      KeepsAppend(NodesText(nodes[..n - 1]), Emission.ElementsText(BuiltAll(rules, nodes[..n - 1])),
                  NodesWhole(rules, atom, nodes, n - 1),
                  Spelling(nodes[n - 1]), Emitted(Built(rules, nodes[n - 1])), Whole(rules, atom, nodes[n - 1]));
    }
  }

  ghost predicate ValuesFine(values: seq<Emission.Value>) {
    forall k :: 0 <= k < |values| ==> Emission.Emittable(values[k])
  }

  lemma NoNodesKeep(rules: Rules, atom: Atom, nodes: seq<Node>)
    requires forall k :: 0 <= k < |nodes| ==> Derives(rules, atom, nodes[k])
    ensures var values := BuiltAll(rules, nodes[..0]);
            ValuesFine(values) && Keeps(NodesText(nodes[..0]), Emission.ElementsText(values), NodesWhole(rules, atom, nodes, 0))
  {
  }

  lemma NodesWholeStep(rules: Rules, atom: Atom, nodes: seq<Node>, n: nat)
    requires 0 < n <= |nodes| && forall k :: 0 <= k < |nodes| ==> Derives(rules, atom, nodes[k])
    ensures NodesWhole(rules, atom, nodes, n) <==> NodesWhole(rules, atom, nodes, n - 1) && Whole(rules, atom, nodes[n - 1])
  {
    hide Whole, Derives;
  }

  lemma NodesStep(rules: Rules, nodes: seq<Node>, n: nat)
    requires 0 < n <= |nodes|
    ensures NodesText(nodes[..n]) == NodesText(nodes[..n - 1]) + Spelling(nodes[n - 1])
    ensures var front, last := BuiltAll(rules, nodes[..n - 1]), Built(rules, nodes[n - 1]);
            && BuiltAll(rules, nodes[..n]) == front + (if last.Some? then [last.value] else [])
            && Emission.ElementsText(BuiltAll(rules, nodes[..n])) == Emission.ElementsText(front) + Emitted(last)
            && (ValuesFine(BuiltAll(rules, nodes[..n])) <==> ValuesFine(front) && Fine(last))
  {
    hide Built, Spelling, Emission.Emit, Emission.Emittable;
    assert nodes[..n][..n - 1] == nodes[..n - 1];
    var front := BuiltAll(rules, nodes[..n - 1]);
    match Built(rules, nodes[n - 1]) {
      case Some(value) =>
        assert BuiltAll(rules, nodes[..n]) == front + [value];
        assert (front + [value])[..|front|] == front;
        assert forall k :: 0 <= k < |front| ==> (front + [value])[k] == front[k];
        assert (front + [value])[|front|] == value;
      case None =>
        assert BuiltAll(rules, nodes[..n]) == front;
    }
  }

  // ---------- The round trip ----------

  /** A parsed model gives its text back exactly when no record of it is swallowed. */
  lemma RoundTripsExactly(rules: Rules, name: string, node: Node)
    requires Hoisted(rules) && Derives(rules, RuleRef(name), node)
    ensures Fine(Built(rules, node))
    ensures Emitted(Built(rules, node)) == Spelling(node) <==> Whole(rules, RuleRef(name), node)
  {
    NodeKeeps(rules, RuleRef(name), node);
  }

  // ---------- The grammars that always round-trip ----------

  ghost predicate NeverSwallows(rules: Rules) {
    forall name, pick :: name in rules && DerivesPick(rules, rules[name], pick) ==> !Swallowed(rules, name, pick)
  }

  lemma {:induction false} NodeIsWhole(rules: Rules, atom: Atom, node: Node)
    requires NeverSwallows(rules) && Derives(rules, atom, node)
    ensures Whole(rules, atom, node)
    decreases node
  {
    match atom {
      case RuleRef(name) =>
        assert DerivesPick(rules, rules[name], node.pick);
        PickIsWhole(rules, rules[name], node.pick);
      case Group(body) =>
        PickIsWhole(rules, body, node.pick);
      case _ =>
    }
  }

  lemma {:induction false} PickIsWhole(rules: Rules, body: Alternation, pick: Pick)
    requires NeverSwallows(rules) && DerivesPick(rules, body, pick)
    ensures WholePick(rules, body, pick)
    decreases pick
  {
    PickParts(rules, body, pick);
    var items := body.arms[pick.arm].items;
    forall k | 0 <= k < |pick.runs| ensures DerivesRun(rules, items[k], pick.runs[k]) && WholeRun(rules, items[k], pick.runs[k]) {
      assert DerivesRun(rules, items[k], pick.runs[k]);
      var run := pick.runs[k];
      forall j | 0 <= j < |run.nodes| ensures Whole(rules, items[k].atom, run.nodes[j]) {
        NodeIsWhole(rules, items[k].atom, run.nodes[j]);
      }
      assert NodesWhole(rules, items[k].atom, run.nodes, |run.nodes|);
    }
  }

  ghost predicate RoundTrips(rules: Rules, name: string, node: Node) {
    Derives(rules, RuleRef(name), node) ==> Emitted(Built(rules, node)) == Spelling(node)
  }

  /** Every parse of a grammar gives its text back exactly when no rule swallows: whatever the tree. */
  lemma AlwaysRoundTrips(rules: Rules)
    requires Hoisted(rules)
    ensures (forall name, node :: RoundTrips(rules, name, node)) <==> NeverSwallows(rules)
  {
    if NeverSwallows(rules) {
      forall name, node ensures RoundTrips(rules, name, node) {
        if Derives(rules, RuleRef(name), node) {
          NodeIsWhole(rules, RuleRef(name), node);
          RoundTripsExactly(rules, name, node);
        }
      }
    }
    if forall name, node :: RoundTrips(rules, name, node) {
      forall name, pick | name in rules && DerivesPick(rules, rules[name], pick) ensures !Swallowed(rules, name, pick) {
        var node := RuleNode(name, pick);
        assert Derives(rules, RuleRef(name), node) && RoundTrips(rules, name, node);
        RoundTripsExactly(rules, name, node);
      }
    }
  }

  /** The reference can come to no model: a choice matches its empty arm below it. */
  ghost predicate Vanishes(rules: Rules, atom: Atom) {
    exists node :: Derives(rules, atom, node) && Built(rules, node).None?
  }

  /** What is read off the grammar: beside an empty arm, an arm with a literal and no field that must be set. */
  ghost predicate CanSwallow(rules: Rules, body: Alternation) {
    && !IsText(body) && !IsChoice(body) && HasEmptyArm(body)
    && exists a :: 0 <= a < |body.arms| && Forgettable(rules, body.arms[a].items)
  }

  ghost predicate Forgettable(rules: Rules, items: seq<Item>) {
    && (forall k :: 0 <= k < |items| ==> CanBeUnset(rules, items[k]))
    && exists k :: 0 <= k < |items| && ModeOf(items[k]).Structural? && items[k].atom.text != ""
  }

  ghost predicate CanBeUnset(rules: Rules, item: Item) {
    match ModeOf(item)
    case Structural => true
    case Verbatim => item.quantifier.lo == 0
    case One => item.quantifier.lo == 0 || (item.quantifier.Admits(1) && Vanishes(rules, item.atom))
    case Several => false
  }

  lemma {:induction false} NoneSpellsNothing(rules: Rules, atom: Atom, node: Node)
    requires Hoisted(rules) && Derives(rules, atom, node) && RefLike(atom) && Built(rules, node).None?
    ensures Spelling(node) == ""
    decreases node
  {
    var body := if atom.RuleRef? then rules[atom.name] else atom.body;
    PickParts(rules, body, node.pick);
    if body.arms[node.pick.arm].items != [] {
      var below := ChoiceParts(rules, body, node.pick);
      OneSpelled(node.pick.runs, below);
      NoneSpellsNothing(rules, body.arms[node.pick.arm].items[0].atom, below);
    } else {
      assert node.pick.runs == [];
    }
  }

  lemma {:induction false} SomeRunSpells(runs: seq<Run>) returns (k: nat)
    requires RunsText(runs) != ""
    ensures k < |runs| && NodesText(runs[k].nodes) != ""
    decreases |runs|
  {
    k := |runs| - 1;
    if NodesText(runs[k].nodes) == "" {
      k := SomeRunSpells(runs[..k]);
    }
  }

  lemma {:induction false} RunSpells(runs: seq<Run>, k: nat)
    requires k < |runs| && NodesText(runs[k].nodes) != ""
    ensures RunsText(runs) != ""
    decreases |runs|
  {
    if k < |runs| - 1 {
      RunSpells(runs[..|runs| - 1], k);
    }
  }

  // A run left unset spells nothing, but for a plain literal.
  lemma UnsetSpells(rules: Rules, item: Item, run: Run)
    requires Hoisted(rules) && DerivesRun(rules, item, run) && Unset(rules, item, run)
    ensures CanBeUnset(rules, item)
    ensures NodesText(run.nodes) == if ModeOf(item).Structural? then item.atom.text else ""
  {
    match ModeOf(item) {
      case Structural => LiteralKeeps(rules, item, run);
      case Verbatim =>
      case One =>
        OneNode(rules, item, run);
        if run.nodes != [] {
          NoneSpellsNothing(rules, item.atom, run.nodes[0]);
          OneText(run.nodes[0]);
          assert run.nodes == [run.nodes[0]];
        }
      case Several =>
    }
  }

  lemma UnsetRun(rules: Rules, item: Item) returns (run: Run)
    requires CanBeUnset(rules, item)
    ensures DerivesRun(rules, item, run) && Unset(rules, item, run)
    ensures ModeOf(item).Structural? ==> NodesText(run.nodes) == item.atom.text
  {
    match ModeOf(item) {
      case Structural =>
        run := Run([Leaf(item.atom.text)]);
        assert DerivesRun(rules, item, run);
        LiteralKeeps(rules, item, run);
      case Verbatim => run := Run([]);
      case One =>
        if item.quantifier.lo == 0 {
          run := Run([]);
        } else {
          var node :| Derives(rules, item.atom, node) && Built(rules, node).None?;
          run := Run([node]);
        }
      case Several =>
    }
  }

  lemma {:induction false} UnsetRuns(rules: Rules, items: seq<Item>) returns (runs: seq<Run>)
    requires forall k :: 0 <= k < |items| ==> CanBeUnset(rules, items[k])
    ensures DerivesArm(rules, items, runs) && forall k :: 0 <= k < |items| ==> Unset(rules, items[k], runs[k])
    ensures forall k :: 0 <= k < |items| && ModeOf(items[k]).Structural? ==> NodesText(runs[k].nodes) == items[k].atom.text
    decreases |items|
  {
    runs := [];
    if items != [] {
      hide CanBeUnset, Unset, DerivesRun, NodesText, ModeOf;
      var front := UnsetRuns(rules, items[..|items| - 1]);
      var run := UnsetRun(rules, items[|items| - 1]);
      runs := front + [run];
      assert forall k :: 0 <= k < |items| - 1 ==> items[..|items| - 1][k] == items[k] && runs[k] == front[k];
    }
  }

  /** A rule has a swallowed tree exactly when it can swallow. */
  lemma SwallowsExactly(rules: Rules, name: string)
    requires Hoisted(rules) && name in rules
    ensures (exists pick :: DerivesPick(rules, rules[name], pick) && Swallowed(rules, name, pick)) <==> CanSwallow(rules, rules[name])
  {
    var body := rules[name];
    if pick :| DerivesPick(rules, body, pick) && Swallowed(rules, name, pick) {
      PickParts(rules, body, pick);
      var items := body.arms[pick.arm].items;
      forall k | 0 <= k < |items|
        ensures CanBeUnset(rules, items[k])
        ensures NodesText(pick.runs[k].nodes) == if ModeOf(items[k]).Structural? then items[k].atom.text else ""
      {
        assert DerivesRun(rules, items[k], pick.runs[k]);
        UnsetSpells(rules, items[k], pick.runs[k]);
      }
      var k := SomeRunSpells(pick.runs);
      assert Forgettable(rules, items);
    }
    if CanSwallow(rules, body) {
      var a :| 0 <= a < |body.arms| && Forgettable(rules, body.arms[a].items);
      var items := body.arms[a].items;
      var k :| 0 <= k < |items| && ModeOf(items[k]).Structural? && items[k].atom.text != "";
      var runs := UnsetRuns(rules, items);
      RunSpells(runs, k);
      assert DerivesPick(rules, body, Pick(a, runs)) && Swallowed(rules, name, Pick(a, runs));
    }
  }

  // ---------- An optional field between brackets, beside an empty arm ----------

  // opt ::= "(" x? ")" | ""; x ::= [a].
  const BRACKETS := Sequence([Item(Literal("("), UNIT), Item(RuleRef("x"), OPTIONAL), Item(Literal(")"), UNIT)])

  const BRACKET_RULES: Rules := map[
    "opt" := Alternation([BRACKETS, Sequence([])]),
    "x" := Alternation([Sequence([Item(CharClass({'a'}), UNIT)])])]

  const EMPTY_BRACKETS := RuleNode("opt", Pick(0, [Run([Leaf("(")]), Run([]), Run([Leaf(")")])]))

  /** The model of "()" emits nothing: with no field set it reads as the empty arm's. */
  lemma EmptyBracketsVanish()
    ensures Hoisted(BRACKET_RULES) && Derives(BRACKET_RULES, RuleRef("opt"), EMPTY_BRACKETS)
    ensures Spelling(EMPTY_BRACKETS) == "()" && Emitted(Built(BRACKET_RULES, EMPTY_BRACKETS)) == ""
  {
    BracketsAreRecord();
    BracketsDerive();
    BracketsSpell();
    hide Spelling, Derives, Hoisted, IsText, IsChoice;
    var slots := BuiltSlots(BRACKET_RULES, BRACKETS.items, EMPTY_BRACKETS.pick.runs);
    SetExactly(BRACKET_RULES, BRACKETS.items, EMPTY_BRACKETS.pick.runs);
    assert BRACKET_RULES["opt"].arms[1].items == [];
    assert Built(BRACKET_RULES, EMPTY_BRACKETS) == Some(Emission.Model(Emission.Record(true, slots)));
    Emission.RecordSpells(true, slots);
  }

  lemma BracketsAreRecord()
    ensures Hoisted(BRACKET_RULES) && !IsText(BRACKET_RULES["opt"]) && !IsChoice(BRACKET_RULES["opt"])
  {
    var arms := BRACKET_RULES["opt"].arms;
    assert arms == [BRACKETS, Sequence([])];
    assert arms[..1] == [BRACKETS] && arms[..1][..0] == [];
    assert NonEmptyArms(arms[..1]) == [BRACKETS];
    assert NonEmptyArms(arms) == [BRACKETS];
    assert "x" in AtomRefs(BRACKETS.items[1].atom);
    assert "x" in ArmRefs(arms[0]);
    assert "x" in AltRefs(BRACKET_RULES["opt"]);
    var xs := BRACKET_RULES["x"].arms;
    assert xs[..0] == [];
    assert |NonEmptyArms(xs)| <= 1;
  }

  lemma BracketsDerive()
    ensures Derives(BRACKET_RULES, RuleRef("opt"), EMPTY_BRACKETS)
  {
    var runs := EMPTY_BRACKETS.pick.runs;
    assert DerivesRun(BRACKET_RULES, BRACKETS.items[0], runs[0]) && DerivesRun(BRACKET_RULES, BRACKETS.items[1], runs[1]);
    assert DerivesRun(BRACKET_RULES, BRACKETS.items[2], runs[2]);
    assert DerivesArm(BRACKET_RULES, BRACKETS.items, runs);
  }

  lemma BracketsSpell()
    ensures Spelling(EMPTY_BRACKETS) == "()"
  {
    var runs := EMPTY_BRACKETS.pick.runs;
    OneText(Leaf("("));
    OneText(Leaf(")"));
    assert runs[..2] == [Run([Leaf("(")]), Run([])] && runs[..2][..1] == [Run([Leaf("(")])] && [Run([Leaf("(")])][..0] == [];
    assert RunsText([Run([Leaf("(")])]) == "(";
    assert RunsText(runs[..2]) == "(";
  }
}
