/**
 Hoisting runs: `r*` becomes one reference to a fresh rule `r-run`.
 */
module Hoisting {
  import opened Wrappers
  import opened Grammars
  import opened Reachability
  import opened Rewrites

  datatype RunSpec = RunSpec(poison: set<char>, element: string)

  function RunName(element: string): string { element + "-run" }

  /** What decides a hoist: the rules kept whole, and the poison of each element whose runs may stay text. */
  datatype Plan = Plan(kept: set<string>, dropped: set<string>, licence: map<string, set<char>>, allowed: Option<set<string>>) {
    predicate Hoists(item: Item) {
      && item.atom.RuleRef? && item.quantifier.hi.None? && item.quantifier.lo == 0
      && item.atom.name !in dropped
      && (allowed.Some? ==> RunName(item.atom.name) in allowed.value)
      && item.atom.name in licence
    }

    function Replaced(item: Item): Item {
      if Hoists(item) then Item(RuleRef(RunName(item.atom.name)), UNIT) else item
    }

    function ReplacedItems(items: seq<Item>): (r: seq<Item>)
      ensures |r| == |items| && forall i :: 0 <= i < |items| ==> r[i] == Replaced(items[i])
    {
      seq(|items|, i requires 0 <= i < |items| => Replaced(items[i]))
    }

    function ReplacedArms(arms: seq<Sequence>): (r: seq<Sequence>)
      ensures |r| == |arms| && forall a :: 0 <= a < |arms| ==> r[a] == Sequence(ReplacedItems(arms[a].items))
    {
      seq(|arms|, a requires 0 <= a < |arms| => Sequence(ReplacedItems(arms[a].items)))
    }

    predicate Keeps(name: string) { name in kept || name in dropped }

    /** The body a rule has in the variant. */
    function Variant(name: string, body: Alternation): Alternation {
      if Keeps(name) then body else Alternation(ReplacedArms(body.arms))
    }

    /** Registered runs are runs of licensed elements under their own names. */
    predicate Registered(runs: map<string, RunSpec>) {
      forall r :: r in runs ==>
        r == RunName(runs[r].element) && runs[r].element in licence && runs[r].poison == licence[runs[r].element]
    }

    /** The run rules an arm's items, or a body's arms, come to need. */
    function ArmRuns(items: seq<Item>): set<string> {
      set i | 0 <= i < |items| && Hoists(items[i]) :: RunName(items[i].atom.name)
    }

    function BodyRuns(arms: seq<Sequence>): set<string> {
      set a, r | 0 <= a < |arms| && r in ArmRuns(arms[a].items) :: r
    }

    /** The run rules the listed rules come to need. */
    function RunsOf(rules: Rules, names: set<string>): set<string> {
      set name, r | name in names && name in rules && !Keeps(name) && r in BodyRuns(rules[name].arms) :: r
    }

    /** The variant: every rule's body with its runs replaced, and one rule per registered run. */
    ghost predicate IsVariant(rules: Rules, runs: map<string, RunSpec>, variant: Rules) {
      && Registered(runs)
      && runs.Keys == RunsOf(rules, rules.Keys)
      && variant.Keys == rules.Keys + runs.Keys
      && (forall r :: r in runs ==> variant[r] == RunBody(runs[r].element))
      && (forall name :: name in rules && name !in runs ==> variant[name] == Variant(name, rules[name]))
    }
  }

  lemma RunNameIsInjective(a: string, b: string)
    requires RunName(a) == RunName(b)
    ensures a == b
  {
    assert RunName(a)[..|a|] == a && RunName(b)[..|b|] == b;
  }

  // ---------- The hoist, registering runs as it goes ----------

  class Hoister {
    const plan: Plan
    var runs: map<string, RunSpec>

    constructor (plan: Plan)
      ensures this.plan == plan && runs == map[] && plan.Registered(runs)
    {
      this.plan := plan;
      runs := map[];
    }

    /** A run item's replacement, its spec registered; none for any other item. */
    method RunReplacement(item: Item) returns (r: Option<Item>)
      requires plan.Registered(runs)
      modifies this
      ensures plan.Registered(runs)
      ensures r == if plan.Hoists(item) then Some(plan.Replaced(item)) else None
      ensures runs == if plan.Hoists(item)
                      then old(runs)[RunName(item.atom.name) := RunSpec(plan.licence[item.atom.name], item.atom.name)]
                      else old(runs)
    {
      if !item.atom.RuleRef? || item.quantifier.hi.Some? {
        return None;
      }
      var element := item.atom.name;
      if item.quantifier.lo != 0 || element in plan.dropped {
        return None;
      }
      var name := RunName(element);
      if plan.allowed.Some? && name !in plan.allowed.value {
        return None;
      }
      if element !in plan.licence {
        return None;
      }
      runs := runs[name := RunSpec(plan.licence[element], element)];
      r := Some(Item(RuleRef(name), UNIT));
    }

    /** One arm's items, each run replaced; whether any was. */
    method HoistArm(arm: seq<Item>) returns (items: seq<Item>, changed: bool)
      requires plan.Registered(runs)
      modifies this
      ensures plan.Registered(runs) && runs.Keys == old(runs).Keys + plan.ArmRuns(arm)
      ensures items == plan.ReplacedItems(arm) && (!changed ==> items == arm)
    {
      hide Plan.Hoists, Plan.Registered;
      items := [];
      changed := false;
      for i := 0 to |arm|
        invariant plan.Registered(runs) && runs.Keys == old(runs).Keys + plan.ArmRuns(arm[..i])
        invariant items == plan.ReplacedItems(arm)[..i]
        invariant !changed ==> items == arm[..i]
      {
        OneMoreItem(plan, arm, i);
        var replacement := RunReplacement(arm[i]);
        items := items + [if replacement.Some? then replacement.value else arm[i]];
        changed := changed || replacement.Some?;
      }
      assert arm[..|arm|] == arm;
    }

    method HoistRuns(body: Alternation) returns (r: Alternation)
      requires plan.Registered(runs)
      modifies this
      ensures plan.Registered(runs) && runs.Keys == old(runs).Keys + plan.BodyRuns(body.arms)
      ensures r.arms == plan.ReplacedArms(body.arms)
    {
      hide Plan.Hoists, Plan.ArmRuns, Plan.Registered;
      var arms: seq<Sequence> := [];
      var changed := false;
      for a := 0 to |body.arms|
        invariant plan.Registered(runs) && runs.Keys == old(runs).Keys + plan.BodyRuns(body.arms[..a])
        invariant arms == plan.ReplacedArms(body.arms)[..a]
        invariant !changed ==> arms == body.arms[..a]
      {
        OneMoreArm(plan, body.arms, a);
        var items, some := HoistArm(body.arms[a].items);
        arms := arms + [Sequence(items)];
        changed := changed || some;
      }
      assert body.arms[..|body.arms|] == body.arms;
      if !changed {
        return body;
      }
      r := Alternation(arms);
    }

    method VariantRules(rules: Rules, names: seq<string>) returns (variant: Rules)
      requires runs == map[] && Elements(names) == rules.Keys
      modifies this
      ensures plan.IsVariant(rules, runs, variant)
    {
      hide Plan.BodyRuns, Plan.Registered, Plan.RunsOf, Plan.ReplacedArms;
      variant := map[];
      NoneRegistered(plan, rules);
      for k := 0 to |names|
        invariant plan.Registered(runs)
        invariant variant.Keys == Elements(names[..k])
        invariant forall n :: n in variant ==> n in rules && variant[n] == plan.Variant(n, rules[n])
        invariant runs.Keys == plan.RunsOf(rules, Elements(names[..k]))
      {
        var name := names[k];
        assert name in Elements(names);
        OneMoreRule(plan, rules, names, k);
        if plan.Keeps(name) {
          variant := variant[name := rules[name]];
        } else {
          var body := HoistRuns(rules[name]);
          variant := variant[name := body];
        }
      }
      assert names[..|names|] == names;
      variant := variant + map r | r in runs :: RunBody(runs[r].element);
    }
  }

  lemma OneMoreRule(plan: Plan, rules: Rules, names: seq<string>, k: nat)
    requires k < |names| && names[k] in rules
    ensures Elements(names[..k + 1]) == Elements(names[..k]) + {names[k]}
    ensures plan.RunsOf(rules, Elements(names[..k + 1]))
         == plan.RunsOf(rules, Elements(names[..k])) + if plan.Keeps(names[k]) then {} else plan.BodyRuns(rules[names[k]].arms)
  {
    assert names[..k + 1] == names[..k] + [names[k]];
  }

  lemma NoneRegistered(plan: Plan, rules: Rules)
    ensures plan.Registered(map[]) && Elements([]) == {} && plan.RunsOf(rules, {}) == {}
  {
  }

  lemma OneMoreItem(plan: Plan, arm: seq<Item>, i: nat)
    requires i < |arm|
    ensures plan.ArmRuns(arm[..i + 1])
         == plan.ArmRuns(arm[..i]) + if plan.Hoists(arm[i]) then {RunName(arm[i].atom.name)} else {}
  {
    var more := arm[..i + 1];
    assert forall j :: 0 <= j < i ==> more[j] == arm[..i][j];
    assert more[i] == arm[i];
    forall r | r in plan.ArmRuns(arm[..i]) ensures r in plan.ArmRuns(more) {
      var j :| 0 <= j < i && plan.Hoists(arm[..i][j]) && RunName(arm[..i][j].atom.name) == r;
      assert more[j] == arm[..i][j];
    }
    if plan.Hoists(arm[i]) {
      assert RunName(more[i].atom.name) in plan.ArmRuns(more);
    }
  }

  lemma OneMoreArm(plan: Plan, arms: seq<Sequence>, a: nat)
    requires a < |arms|
    ensures plan.BodyRuns(arms[..a + 1]) == plan.BodyRuns(arms[..a]) + plan.ArmRuns(arms[a].items)
  {
    hide Plan.ArmRuns;
    var more := arms[..a + 1];
    assert more[a] == arms[a];
    forall r | r in plan.BodyRuns(arms[..a]) ensures r in plan.BodyRuns(more) {
      var b :| 0 <= b < a && r in plan.ArmRuns(arms[..a][b].items);
      assert more[b] == arms[..a][b];
    }
    forall r | r in plan.ArmRuns(arms[a].items) ensures r in plan.BodyRuns(more) {
      assert r in plan.ArmRuns(more[a].items);
    }
    forall r | r in plan.BodyRuns(more) ensures r in plan.BodyRuns(arms[..a]) + plan.ArmRuns(arms[a].items) {
      var b :| 0 <= b < |more| && r in plan.ArmRuns(more[b].items);
      if b < a {
        assert arms[..a][b] == more[b];
      }
    }
  }

  /** An unbounded run of a licensed element, as the grammar spells it. */
  ghost predicate LicensedRun(plan: Plan, item: Item) {
    && exists element :: item == Item(RuleRef(element), STAR) && element in plan.licence && element !in plan.dropped
                         && (plan.allowed.Some? ==> element + "-run" in plan.allowed.value)
  }

  /**
   The variant has no licensed run left in a rule not kept, every other item is as it was,
   and a rule kept is as it was.
   */
  lemma NoRunLeft(plan: Plan, rules: Rules, runs: map<string, RunSpec>, variant: Rules, name: string)
    requires plan.IsVariant(rules, runs, variant) && name in rules && name !in runs
    ensures name in variant && |variant[name].arms| == |rules[name].arms|
    ensures name in plan.kept || name in plan.dropped ==> variant[name] == rules[name]
    ensures !(name in plan.kept || name in plan.dropped) ==>
              forall a, i :: 0 <= a < |rules[name].arms| && 0 <= i < |rules[name].arms[a].items| ==>
                |variant[name].arms[a].items| == |rules[name].arms[a].items|
                && var item, image := rules[name].arms[a].items[i], variant[name].arms[a].items[i];
                   if LicensedRun(plan, item)
                   then image == Item(RuleRef(item.atom.name + "-run"), UNIT) && item.atom.name + "-run" in runs
                   else image == item
  {
    if !plan.Keeps(name) {
      forall a, i | 0 <= a < |rules[name].arms| && 0 <= i < |rules[name].arms[a].items|
        ensures LicensedRun(plan, rules[name].arms[a].items[i]) <==> plan.Hoists(rules[name].arms[a].items[i])
        ensures plan.Hoists(rules[name].arms[a].items[i]) ==> RunName(rules[name].arms[a].items[i].atom.name) in runs
      {
        var item := rules[name].arms[a].items[i];
        if plan.Hoists(item) {
          assert item == Item(RuleRef(item.atom.name), STAR);
          assert RunName(item.atom.name) in plan.ArmRuns(rules[name].arms[a].items);
          assert RunName(item.atom.name) in plan.BodyRuns(rules[name].arms);
        }
      }
    }
  }

  /** Every run rule of the variant repeats an element some rule not kept repeated, with that element's licence. */
  lemma RunsAreNeeded(plan: Plan, rules: Rules, runs: map<string, RunSpec>, variant: Rules, run: string)
    requires plan.IsVariant(rules, runs, variant) && run in runs
    ensures run == runs[run].element + "-run" && run in variant
    ensures variant[run] == Alternation([Sequence([Item(RuleRef(runs[run].element), STAR)])])
    ensures runs[run].element in plan.licence && runs[run].poison == plan.licence[runs[run].element]
    ensures exists name, a, i :: name in rules && !plan.Keeps(name) && 0 <= a < |rules[name].arms|
                                 && 0 <= i < |rules[name].arms[a].items|
                                 && rules[name].arms[a].items[i] == Item(RuleRef(runs[run].element), STAR)
  {
    assert run in plan.RunsOf(rules, rules.Keys);
    var name :| name in rules && !plan.Keeps(name) && run in plan.BodyRuns(rules[name].arms);
    var a :| 0 <= a < |rules[name].arms| && run in plan.ArmRuns(rules[name].arms[a].items);
    var items := rules[name].arms[a].items;
    var i :| 0 <= i < |items| && plan.Hoists(items[i]) && RunName(items[i].atom.name) == run;
    RunNameIsInjective(items[i].atom.name, runs[run].element);
    assert items[i] == Item(RuleRef(runs[run].element), STAR);
  }

  // ---------- The variant is a rewrite ----------

  /** No rule, and no reference, already has the name of a run the grammar comes to need. */
  ghost predicate Hoistable(rules: Rules, plan: Plan) {
    var needed := plan.RunsOf(rules, rules.Keys);
    needed !! rules.Keys && forall name :: name in rules ==> AltRefs(rules[name]) !! needed
  }

  // The rewrite defines none of these names anew, and drops none.
  ghost predicate Steady(from: Rules, to: Rules, names: set<string>) {
    forall name :: name in names ==> SameDefined(from, to, name)
  }

  // A body whose references are as defined as before rewrites to itself.
  lemma {:induction false} AltToItself(from: Rules, to: Rules, body: Alternation)
    requires Steady(from, to, AltRefs(body))
    ensures AltTo(from, to, body, body)
    decreases body
  {
    forall a | 0 <= a < |body.arms| ensures ArmTo(from, to, body.arms[a], body.arms[a]) {
      ArmToItself(from, to, body.arms[a]);
    }
  }

  lemma {:induction false} ArmToItself(from: Rules, to: Rules, arm: Sequence)
    requires Steady(from, to, ArmRefs(arm))
    ensures ArmTo(from, to, arm, arm)
    decreases arm
  {
    forall i | 0 <= i < |arm.items| ensures ItemTo(from, to, arm.items[i], arm.items[i]) {
      AtomToItself(from, to, arm.items[i].atom);
    }
  }

  lemma {:induction false} AtomToItself(from: Rules, to: Rules, atom: Atom)
    requires Steady(from, to, AtomRefs(atom))
    ensures AtomTo(from, to, atom, atom)
    decreases atom
  {
    match atom {
      case RuleRef(name) => assert name in AtomRefs(atom);
      case Group(body) => AltToItself(from, to, body);
      case _ =>
    }
  }

  lemma ReplacedIsTo(plan: Plan, rules: Rules, runs: map<string, RunSpec>, variant: Rules, body: Alternation)
    requires plan.IsVariant(rules, runs, variant) && plan.BodyRuns(body.arms) <= runs.Keys
    requires Steady(rules, variant, AltRefs(body))
    ensures AltTo(rules, variant, body, Alternation(plan.ReplacedArms(body.arms)))
  {
    var image := Alternation(plan.ReplacedArms(body.arms));
    forall a | 0 <= a < |body.arms| ensures ArmTo(rules, variant, body.arms[a], image.arms[a]) {
      var items := body.arms[a].items;
      assert ArmRefs(body.arms[a]) <= AltRefs(body);
      assert plan.ArmRuns(items) <= plan.BodyRuns(body.arms);
      forall i | 0 <= i < |items| ensures ItemTo(rules, variant, items[i], plan.Replaced(items[i])) {
        assert AtomRefs(items[i].atom) <= ArmRefs(body.arms[a]);
        if plan.Hoists(items[i]) {
          ItemIsHoisted(plan, rules, runs, variant, items, i);
        } else {
          AtomToItself(rules, variant, items[i].atom);
        }
      }
    }
  }

  lemma ItemIsHoisted(plan: Plan, rules: Rules, runs: map<string, RunSpec>, variant: Rules, items: seq<Item>, i: nat)
    requires plan.IsVariant(rules, runs, variant) && plan.ArmRuns(items) <= runs.Keys
    requires i < |items| && plan.Hoists(items[i]) && Steady(rules, variant, AtomRefs(items[i].atom))
    ensures Hoisted(rules, variant, items[i], plan.Replaced(items[i]))
  {
    var element := items[i].atom.name;
    assert element in AtomRefs(items[i].atom);
    assert RunName(element) in plan.ArmRuns(items);
    RunNameIsInjective(runs[RunName(element)].element, element);
  }

  lemma VariantRewrites(plan: Plan, rules: Rules, runs: map<string, RunSpec>, variant: Rules)
    requires plan.IsVariant(rules, runs, variant) && Hoistable(rules, plan)
    ensures Rewrites.Rewrites(rules, variant)
  {
    forall n | n in rules ensures n in variant && AltTo(rules, variant, rules[n], variant[n]) {
      assert n !in runs;
      if plan.Keeps(n) {
        AltToItself(rules, variant, rules[n]);
      } else {
        assert plan.BodyRuns(rules[n].arms) <= plan.RunsOf(rules, rules.Keys);
        ReplacedIsTo(plan, rules, runs, variant, rules[n]);
      }
    }
  }

  /** Hoisting every licensed run leaves every rule the language it had. */
  lemma HoistKeepsLanguages(plan: Plan, rules: Rules, runs: map<string, RunSpec>, variant: Rules, name: string,
          text: string)
    requires plan.IsVariant(rules, runs, variant) && Hoistable(rules, plan) && name in rules
    ensures InLanguage(rules, name, text) <==> InLanguage(variant, name, text)
  {
    VariantRewrites(plan, rules, runs, variant);
    RewriteKeepsLanguages(rules, variant, name, text);
  }
}
