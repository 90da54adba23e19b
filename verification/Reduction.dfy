/**
 Text equivalence: which rules reduce to the very text they matched.

 A reducer gives each rule a body and drops some rules as noise.  A rule's value is
 its body applied to its channel, the values of the rules below it.
 */
module Reduction {
  import opened Wrappers
  import opened Grammars
  import opened Reachability

  // ---------- Reducers ----------

  datatype Value = Text(text: string) | Built(id: int)

  datatype Body =
    | Yield                    // the matched text, dropped rules left out
    | Constant(text: string)
    | JoinArgs                 // the channel, joined
    | Action(tag: nat)         // anything else

  datatype Reducer = Reducer(
    dropped: set<string>,
    keepRaw: bool,
    bodies: map<string, Body>,
    act: (nat, seq<Value>, string) -> Value,
    show: int -> string)
  {
    function Body(name: string): Body {
      if name in bodies then bodies[name] else Yield
    }

    function Shown(value: Value): string {
      match value
      case Text(text) => text
      case Built(id) => show(id)
    }

    function Joined(channel: seq<Value>): string {
      if channel == [] then "" else Joined(channel[..|channel| - 1]) + Shown(channel[|channel| - 1])
    }

    function Apply(body: Body, channel: seq<Value>, kept: string): Value {
      match body
      case Yield => Text(kept)
      case Constant(text) => Text(text)
      case JoinArgs => Text(Joined(channel))
      case Action(tag) => act(tag, channel, kept)
    }
  }

  function Letters(text: string): seq<Value> {
    seq(|text|, k requires 0 <= k < |text| => Text([text[k]]))
  }

  // ---------- The value of a derivation tree ----------

  /** The value of a rule's tree. */
  function ValueOf(red: Reducer, name: string, pick: Pick): Value
    decreases pick
  {
    red.Apply(red.Body(name), RunsChannel(red, pick.runs), RunsKept(red, pick.runs))
  }

  function RunsChannel(red: Reducer, runs: seq<Run>): seq<Value>
    decreases runs
  {
    if runs == [] then [] else RunsChannel(red, runs[..|runs| - 1]) + NodesChannel(red, runs[|runs| - 1].nodes)
  }

  function NodesChannel(red: Reducer, nodes: seq<Node>): seq<Value>
    decreases nodes
  {
    if nodes == [] then [] else NodesChannel(red, nodes[..|nodes| - 1]) + NodeChannel(red, nodes[|nodes| - 1])
  }

  function NodeChannel(red: Reducer, node: Node): seq<Value>
    decreases node
  {
    match node
    case Leaf(text) => if red.keepRaw then Letters(text) else []
    case RuleNode(name, pick) => if name in red.dropped then [] else [ValueOf(red, name, pick)]
    case GroupNode(pick) => RunsChannel(red, pick.runs)
  }

  /** The text below a tree, what dropped rules matched left out. */
  function RunsKept(red: Reducer, runs: seq<Run>): string
    decreases runs
  {
    if runs == [] then "" else RunsKept(red, runs[..|runs| - 1]) + NodesKept(red, runs[|runs| - 1].nodes)
  }

  function NodesKept(red: Reducer, nodes: seq<Node>): string
    decreases nodes
  {
    if nodes == [] then "" else NodesKept(red, nodes[..|nodes| - 1]) + NodeKept(red, nodes[|nodes| - 1])
  }

  function NodeKept(red: Reducer, node: Node): string
    decreases node
  {
    match node
    case Leaf(text) => text
    case RuleNode(name, pick) => if name in red.dropped then "" else RunsKept(red, pick.runs)
    case GroupNode(pick) => RunsKept(red, pick.runs)
  }

  /** A terminal adds its letters one by one where literals are kept, and nothing otherwise; a dropped rule adds nothing, any other its value alone. */
  lemma ChannelOf(red: Reducer, text: string, name: string, pick: Pick)
    ensures NodeChannel(red, Leaf(text)) == if red.keepRaw then seq(|text|, k requires 0 <= k < |text| => Text(text[k..k + 1])) else []
    ensures name in red.dropped ==> NodeChannel(red, RuleNode(name, pick)) == [] && NodeKept(red, RuleNode(name, pick)) == ""
    ensures name !in red.dropped ==> NodeChannel(red, RuleNode(name, pick)) == [ValueOf(red, name, pick)]
    ensures NodeChannel(red, GroupNode(pick)) == RunsChannel(red, pick.runs)
  {
    assert forall k :: 0 <= k < |text| ==> text[k..k + 1] == [text[k]];
  }

  // ---------- The analysis ----------

  /** The rule's whole language when it is one plain literal. */
  function SingleLiteral(body: Alternation): Option<string> {
    if |body.arms| == 1 && |body.arms[0].items| == 1
       && body.arms[0].items[0].atom.Literal? && body.arms[0].items[0].quantifier == UNIT
    then Some(body.arms[0].items[0].atom.text)
    else None
  }

  /** A body is a single literal exactly when it is one arm of that one literal, once. */
  lemma SingleLiteralExactly(body: Alternation)
    ensures forall text :: SingleLiteral(body) == Some(text) <==> body == Alternation([Sequence([Item(Literal(text), UNIT)])])
  {
    forall text | SingleLiteral(body) == Some(text) ensures body == Alternation([Sequence([Item(Literal(text), UNIT)])]) {
      assert body.arms == [body.arms[0]] && body.arms[0].items == [body.arms[0].items[0]];
    }
  }

  datatype Analysis = Analysis(rules: Rules, reducer: Reducer, reach: Table) {
    /** Text-equivalent by an argument at most `k` joins deep. */
    ghost predicate EquivWithin(name: string, k: nat)
      decreases k, 0
    {
      && name !in reducer.dropped
      && match reducer.Body(name)
         case Yield => name in reach && reach[name] !! reducer.dropped
         case Constant(text) => name in rules && SingleLiteral(rules[name]) == Some(text)
         case JoinArgs => k > 0 && name in rules && JoinsWithin(rules[name], k - 1)
         case Action(_) => false
    }

    ghost predicate JoinsWithin(body: Alternation, k: nat)
      decreases k, 1
    {
      forall a, i :: 0 <= a < |body.arms| && 0 <= i < |body.arms[a].items| ==>
        body.arms[a].items[i].atom.RuleRef? && EquivWithin(body.arms[a].items[i].atom.name, k)
    }

    /** Text-equivalent: cycles of joins, resting on nothing, are not. */
    ghost predicate Equiv(name: string) {
      exists k :: EquivWithin(name, k)
    }

    ghost predicate Joins(body: Alternation) {
      forall a, i :: 0 <= a < |body.arms| && 0 <= i < |body.arms[a].items| ==>
        body.arms[a].items[i].atom.RuleRef? && Equiv(body.arms[a].items[i].atom.name)
    }

    lemma {:induction false} WithinGrows(name: string, k: nat, l: nat)
      requires k <= l && EquivWithin(name, k)
      ensures EquivWithin(name, l)
      decreases k
    {
      if reducer.Body(name).JoinArgs? {
        var body := rules[name];
        forall a, i | 0 <= a < |body.arms| && 0 <= i < |body.arms[a].items|
          ensures body.arms[a].items[i].atom.RuleRef? && EquivWithin(body.arms[a].items[i].atom.name, l - 1)
        {
          WithinGrows(body.arms[a].items[i].atom.name, k - 1, l - 1);
        }
      }
    }

    // Finitely many arguments have a deepest one.
    lemma {:induction false} ArmDepth(items: seq<Item>, n: nat) returns (k: nat)
      requires n <= |items| && forall i :: 0 <= i < n ==> items[i].atom.RuleRef? && Equiv(items[i].atom.name)
      ensures forall i :: 0 <= i < n ==> EquivWithin(items[i].atom.name, k)
      decreases n
    {
      k := 0;
      if n > 0 {
        var rest := ArmDepth(items, n - 1);
        var last: nat :| EquivWithin(items[n - 1].atom.name, last);
        k := if rest > last then rest else last;
        forall i | 0 <= i < n ensures EquivWithin(items[i].atom.name, k) {
          WithinGrows(items[i].atom.name, if i == n - 1 then last else rest, k);
        }
      }
    }

    lemma {:induction false} BodyDepth(body: Alternation, n: nat) returns (k: nat)
      requires n <= |body.arms| && Joins(body)
      ensures forall a, i ::
            0 <= a < n && 0 <= i < |body.arms[a].items| ==> EquivWithin(body.arms[a].items[i].atom.name, k)
      decreases n
    {
      k := 0;
      if n > 0 {
        var rest := BodyDepth(body, n - 1);
        var items := body.arms[n - 1].items;
        forall i | 0 <= i < |items| ensures items[i].atom.RuleRef? && Equiv(items[i].atom.name) {
          assert body.arms[n - 1].items[i] == items[i];
        }
        var last := ArmDepth(items, |items|);
        k := if rest > last then rest else last;
        forall a, i | 0 <= a < n && 0 <= i < |body.arms[a].items|
          ensures EquivWithin(body.arms[a].items[i].atom.name, k)
        {
          WithinGrows(body.arms[a].items[i].atom.name, if a == n - 1 then last else rest, k);
        }
      }
    }

    /** A join is text-equivalent exactly when everything it consumes is. */
    lemma JoinEquiv(name: string)
      requires name !in reducer.dropped && reducer.Body(name).JoinArgs? && name in rules
      ensures Equiv(name) <==> Joins(rules[name])
    {
      var body := rules[name];
      if Equiv(name) {
        var k: nat :| EquivWithin(name, k);
        forall a, i | 0 <= a < |body.arms| && 0 <= i < |body.arms[a].items|
          ensures body.arms[a].items[i].atom.RuleRef? && Equiv(body.arms[a].items[i].atom.name)
        {
          assert JoinsWithin(body, k - 1);
          assert EquivWithin(body.arms[a].items[i].atom.name, k - 1);
        }
      }
      if Joins(body) {
        var k := BodyDepth(body, |body.arms|);
        assert JoinsWithin(body, k);
        assert EquivWithin(name, k + 1);
      }
    }

    /**
     A rule is text-equivalent exactly when it is not dropped and yields without a dropped
     rule in its entry, is the very constant it reduces to, or joins references to
     text-equivalent rules; an action never is.
     */
    lemma EquivExactly(name: string)
      ensures reducer.Body(name).Yield? ==>
                (Equiv(name) <==> name !in reducer.dropped && name in reach && reach[name] !! reducer.dropped)
      ensures forall text :: reducer.Body(name) == Constant(text) ==>
                (Equiv(name) <==> name !in reducer.dropped && name in rules
                                  && rules[name] == Alternation([Sequence([Item(Literal(text), UNIT)])]))
      ensures reducer.Body(name).JoinArgs? ==>
                (Equiv(name) <==> name !in reducer.dropped && name in rules
                                  && forall arm, item :: arm in rules[name].arms && item in arm.items ==>
                                       item.atom.RuleRef? && Equiv(item.atom.name))
      ensures reducer.Body(name).Action? ==> !Equiv(name)
    {
      if reducer.Body(name).Yield? && name !in reducer.dropped && name in reach && reach[name] !! reducer.dropped {
        assert EquivWithin(name, 0);
      }
      if reducer.Body(name).Constant? && name in rules {
        SingleLiteralExactly(rules[name]);
        if name !in reducer.dropped && SingleLiteral(rules[name]) == Some(reducer.Body(name).text) {
          assert EquivWithin(name, 0);
        }
      }
      if reducer.Body(name).JoinArgs? && name !in reducer.dropped && name in rules {
        JoinEquiv(name);
        JoinsEverywhere(rules[name]);
      }
    }

    lemma JoinsEverywhere(body: Alternation)
      ensures Joins(body) <==>
                forall arm, item :: arm in body.arms && item in arm.items ==> item.atom.RuleRef? && Equiv(item.atom.name)
    {
      if Joins(body) {
        forall arm, item | arm in body.arms && item in arm.items ensures item.atom.RuleRef? && Equiv(item.atom.name) {
          var a :| 0 <= a < |body.arms| && body.arms[a] == arm;
          var i :| 0 <= i < |arm.items| && arm.items[i] == item;
          assert body.arms[a].items[i] == item;
        }
      }
    }

    // Any argument for `p` needs a shallower one for `name`.
    ghost predicate Needs(p: string, name: string) {
      forall k: nat :: EquivWithin(p, k) ==> k > 0 && EquivWithin(name, k - 1)
    }

    lemma {:induction false} NeedingItselfFails(name: string, k: nat)
      requires Needs(name, name)
      ensures !EquivWithin(name, k)
      decreases k
    {
      if k > 0 {
        NeedingItselfFails(name, k - 1);
      }
    }

    lemma NeedsOn(p: string, name: string, child: string)
      requires Needs(p, name) && Needs(name, child)
      ensures Needs(p, child)
    {
      forall k: nat | EquivWithin(p, k) ensures k > 0 && EquivWithin(child, k - 1) {
        assert EquivWithin(name, k - 1);
        WithinGrows(child, k - 2, k - 1);
      }
    }

    lemma JoinNeeds(name: string, a: nat, i: nat)
      requires reducer.Body(name).JoinArgs? && name in rules
      requires a < |rules[name].arms| && i < |rules[name].arms[a].items| && rules[name].arms[a].items[i].atom.RuleRef?
      ensures Needs(name, rules[name].arms[a].items[i].atom.name)
    {
      forall k: nat | EquivWithin(name, k)
        ensures k > 0 && EquivWithin(rules[name].arms[a].items[i].atom.name, k - 1)
      {
        assert JoinsWithin(rules[name], k - 1);
      }
    }

    /** Every rule a body names, and every rule listed, is defined. */
    ghost predicate Defined() {
      && rules.Keys <= reach.Keys
      && forall name :: name in rules ==> AltRefs(rules[name]) <= rules.Keys
    }
  }

  lemma JoinRefs(body: Alternation, a: nat, i: nat)
    requires a < |body.arms| && i < |body.arms[a].items| && body.arms[a].items[i].atom.RuleRef?
    ensures body.arms[a].items[i].atom.name in AltRefs(body)
  {
    assert body.arms[a].items[i].atom.name in AtomRefs(body.arms[a].items[i].atom);
    assert body.arms[a].items[i].atom.name in ArmRefs(body.arms[a]);
  }

  /** The verdicts, filled in place; a rule under way reads as refused. */
  class Verdicts {
    const analysis: Analysis
    var equiv: map<string, bool>

    constructor (analysis: Analysis)
      ensures this.analysis == analysis && equiv == map[]
    {
      this.analysis := analysis;
      equiv := map[];
    }

    /** Every settled verdict is right, and every rule under way reads as refused. */
    ghost predicate Right(pending: set<string>)
      reads this
    {
      && pending <= equiv.Keys
      && forall m :: m in equiv ==> if m in pending then !equiv[m] else equiv[m] == analysis.Equiv(m)
    }

    method TextEquiv(name: string, ghost pending: set<string>) returns (r: Result<bool, string>)
      requires Right(pending) && forall p :: p in pending ==> analysis.Needs(p, name)
      requires analysis.Defined() ==> name in analysis.rules
      modifies this`equiv
      ensures old(equiv).Keys <= equiv.Keys
      ensures r.Ok? ==> Right(pending) && name in equiv && r.value == analysis.Equiv(name)
      ensures analysis.Defined() ==> r.Ok?
      decreases analysis.rules.Keys - equiv.Keys, 0
    {
      if name in equiv {
        if name in pending && analysis.Equiv(name) {
          ghost var k: nat :| analysis.EquivWithin(name, k);
          analysis.NeedingItselfFails(name, k);
        }
        return Ok(equiv[name]);
      }
      equiv := equiv[name := false];
      assert Right(pending + {name});
      var got := false;
      if name in analysis.reducer.dropped {
        got := false;
      } else {
        match analysis.reducer.Body(name) {
          case Yield =>
            if name !in analysis.reach { return Err(name); }
            got := analysis.reach[name] !! analysis.reducer.dropped;
            assert analysis.EquivWithin(name, 0) == got;
          case Constant(text) =>
            if name !in analysis.rules { return Err(name); }
            got := SingleLiteral(analysis.rules[name]) == Some(text);
            assert analysis.EquivWithin(name, 0) == got;
          case JoinArgs =>
            if name !in analysis.rules { return Err(name); }
            var joins := JoinTransparent(name, pending);
            if joins.Err? { return joins; }
            got := joins.value;
            analysis.JoinEquiv(name);
          case Action(_) =>
            got := false;
        }
      }
      equiv := equiv[name := got];
      r := Ok(got);
    }

    method JoinTransparent(name: string, ghost pending: set<string>) returns (r: Result<bool, string>)
      requires name in analysis.rules && analysis.reducer.Body(name).JoinArgs? && name !in pending
      requires Right(pending + {name}) && forall p :: p in pending ==> analysis.Needs(p, name)
      modifies this`equiv
      ensures old(equiv).Keys <= equiv.Keys
      ensures r.Ok? ==> Right(pending + {name}) && r.value == analysis.Joins(analysis.rules[name])
      ensures analysis.Defined() ==> r.Ok?
      decreases analysis.rules.Keys - equiv.Keys, 1
    {
      var body := analysis.rules[name];
      var a := 0;
      while a < |body.arms|
        invariant 0 <= a <= |body.arms| && old(equiv).Keys <= equiv.Keys
        invariant Right(pending + {name})
        invariant forall b, i :: 0 <= b < a && 0 <= i < |body.arms[b].items| ==>
                    body.arms[b].items[i].atom.RuleRef? && analysis.Equiv(body.arms[b].items[i].atom.name)
      {
        var items := body.arms[a].items;
        var k := 0;
        while k < |items|
          invariant 0 <= k <= |items| && old(equiv).Keys <= equiv.Keys
          invariant Right(pending + {name})
          invariant forall i :: 0 <= i < k ==> items[i].atom.RuleRef? && analysis.Equiv(items[i].atom.name)
        {
          if !items[k].atom.RuleRef? {
            return Ok(false);
          }
          var child := items[k].atom.name;
          analysis.JoinNeeds(name, a, k);
          forall p | p in pending ensures analysis.Needs(p, child) {
            analysis.NeedsOn(p, name, child);
          }
          JoinRefs(body, a, k);
          var one := TextEquiv(child, pending + {name});
          if one.Err? {
            return one;
          }
          if !one.value {
            return Ok(false);
          }
          k := k + 1;
        }
        a := a + 1;
      }
      r := Ok(true);
    }

    /** Every rule's verdict: what the recursion answers does not depend on where it starts. */
    method Analyze(names: seq<string>) returns (ok: bool)
      requires equiv == map[] && forall k :: 0 <= k < |names| ==> names[k] in analysis.rules
      modifies this`equiv
      ensures ok ==> forall k :: 0 <= k < |names| ==> names[k] in equiv && equiv[names[k]] == analysis.Equiv(names[k])
      ensures analysis.Defined() ==> ok
    {
      var k := 0;
      while k < |names|
        invariant 0 <= k <= |names| && Right({})
        invariant forall j :: 0 <= j < k ==> names[j] in equiv
      {
        var one := TextEquiv(names[k], {});
        if one.Err? {
          return false;
        }
        k := k + 1;
      }
      ok := true;
    }
  }
}
